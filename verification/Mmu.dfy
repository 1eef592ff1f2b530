/**
  The memory manager of src/mmu.c together with src/arch/x86_64/paging.c, word by
  word: every method is the C function of the same name, and its contract ties the
  new memory to an operation on the abstract address space.
 */
module Mmu {
  import opened Basics
  import opened PhysicalMemory
  import opened FrameQueue
  import opened AddressSpace
  import opened PageTable
  import FramePool

  /** MMAP_KERNEL_HEAP_START and MMAP_KERNEL_HEAP_END. */
  const HEAP_START: nat := 0xF00_0000_0000
  const HEAP_END: nat := 0x1000_0000_0000
  /** MMAP_KERNEL_STACKS_END. */
  const STACKS_END: nat := 0x200_0000_0000

  // ------------------------------------------------------------------
  // The hardware's view of the tables
  // ------------------------------------------------------------------

  /** Intel SDM Vol. 3A section 4.5: the frame a virtual address translates to, walking from `table` at `depth`; huge entries end the walk early. */
  function Translate(mem: Memory, table: Frame, vaddr: nat, depth: nat): Option<Frame>
    requires depth <= 3
    decreases 3 - depth
  {
    var entry := Read(mem, Slot(table, OffsetForDepth(vaddr, depth)));
    if !entry.present then None
    else if depth == 3 then Some(entry.address)
    else if entry.huge && depth == 2 then Some(entry.address + vaddr / 4096 % 512)
    else if entry.huge && depth == 1 then Some(entry.address + vaddr / 4096 % 0x4_0000)
    else Translate(mem, entry.address, vaddr, depth + 1)
  }

  ghost function FlatLookup(s: Space, v: Page): Option<Frame> {
    if IsMapped(s, v) then Some(s.pages[v].frame) else None
  }

  /** Where the entry for the node below `On(v, depth)` lies. */
  lemma {:induction false} EntrySlot(s: Space, vaddr: nat, depth: nat)
    requires WellFormed(s) && Managed(vaddr / 4096) && depth <= 3 && On(vaddr / 4096, depth) in s.tables
    ensures Live(s, On(vaddr / 4096, depth + 1))
    ensures SlotOf(s, On(vaddr / 4096, depth + 1))
         == Slot(s.tables[On(vaddr / 4096, depth)], OffsetForDepth(vaddr, depth))
  {
    var v := vaddr / 4096;
    OffsetIsChildNumber(vaddr, depth);
    ManagedTop(v);
    assert Parent(On(v, depth + 1)) == On(v, depth);
  }

  /** What a walk finds at `depth`: the entry of the next node, described by the address space. */
  lemma {:induction false} WalkStep(mem: Memory, s: Space, vaddr: nat, depth: nat)
    requires Encodes(mem, s) && WellFormed(s) && Managed(vaddr / 4096) && depth <= 3 && On(vaddr / 4096, depth) in s.tables
    ensures Live(s, On(vaddr / 4096, depth + 1))
    ensures SlotOf(s, On(vaddr / 4096, depth + 1))
         == Slot(s.tables[On(vaddr / 4096, depth)], OffsetForDepth(vaddr, depth))
    ensures var v, w := vaddr / 4096, Read(mem, Slot(s.tables[On(vaddr / 4096, depth)], OffsetForDepth(vaddr, depth)));
            && Entry(w, s, On(v, depth + 1))
            && (depth < 3 ==> (w.present <==> On(v, depth + 1) in s.tables))
            && (depth < 3 && w.present ==> !w.huge && w.address == s.tables[On(v, depth + 1)])
            && (depth == 3 ==> (w.present <==> IsMapped(s, v)))
            && (depth == 3 && w.present ==> w.address == s.pages[v].frame)
            && (depth == 3 && !w.present ==> (w.demand <==> v in s.pages))
  {
    EntrySlot(s, vaddr, depth);
    assert depth == 3 ==> On(vaddr / 4096, 4) == Node(4, vaddr / 4096);
  }

  /** The multi-level table in memory is the flat map: the hardware translates every managed address as `pages` says. */
  lemma {:induction false} TranslateFrom(mem: Memory, s: Space, vaddr: nat, depth: nat)
    requires Encodes(mem, s) && WellFormed(s) && Managed(vaddr / 4096) && depth <= 3 && On(vaddr / 4096, depth) in s.tables
    ensures Translate(mem, s.tables[On(vaddr / 4096, depth)], vaddr, depth) == FlatLookup(s, vaddr / 4096)
    decreases 3 - depth
  {
    hide Encodes, WellFormed, Managed, OffsetForDepth;
    var v := vaddr / 4096;
    WalkStep(mem, s, vaddr, depth);
    if depth < 3 {
      if On(v, depth + 1) in s.tables {
        TranslateFrom(mem, s, vaddr, depth + 1);
      } else {
        MissingTable(s, v, depth + 1);
      }
    }
  }

  /** A reserved or mapped page has all its tables. */
  lemma {:induction false} TablesAbove(s: Space, v: Page, depth: nat)
    requires WellFormed(s) && v in s.pages && depth <= 3
    ensures On(v, depth) in s.tables
    decreases 3 - depth
  {
    if depth < 3 {
      TablesAbove(s, v, depth + 1);
      assert Parent(On(v, depth + 1)) == On(v, depth);
    }
  }

  lemma {:induction false} MissingTable(s: Space, v: Page, depth: nat)
    requires WellFormed(s) && depth <= 3 && On(v, depth) !in s.tables
    ensures v !in s.pages
  {
    if v in s.pages {
      TablesAbove(s, v, depth);
    }
  }

  lemma {:induction false} TranslateAgrees(mem: Memory, segs: seq<Segment>, head: Frame, tail: Frame,
                        root: Frame, identity: Frame, s: Space, vaddr: nat)
    requires Represents(mem, segs, head, tail, root, identity, s) && Managed(vaddr / 4096)
    ensures Translate(mem, root, vaddr, 0) == FlatLookup(s, vaddr / 4096)
  {
    ManagedTop(vaddr / 4096);
    TranslateFrom(mem, s, vaddr, 0);
  }

  /** Below the first gigabyte every address translates to itself; the rest of P4 entry 0 is not mapped. */
  lemma {:induction false} IdentityTranslates(mem: Memory, root: Frame, p3: Frame, p2: Frame, vaddr: nat)
    requires Read(mem, Slot(root, 0)) == EntryFor(p3) && IdentityMap(mem, p3, p2) && vaddr / 4096 < P4_SPAN
    ensures Translate(mem, root, vaddr, 0) == if vaddr < 0x4000_0000 then Some(vaddr / 4096) else None
  {
    hide OffsetForDepth;
    LowOffsets(vaddr);
    var i, j := OffsetForDepth(vaddr, 1), OffsetForDepth(vaddr, 2);
    assert Translate(mem, root, vaddr, 0) == Translate(mem, p3, vaddr, 1);
    if i == 0 {
      assert Translate(mem, p3, vaddr, 1) == Translate(mem, p2, vaddr, 2);
      assert Read(mem, Slot(p2, j)) == EntryFor(512 * j).(huge := true);
    } else {
      assert !Read(mem, Slot(p3, i)).present;
    }
  }

  lemma {:induction false} IdentityApart(mem: Memory, mem': Memory, p3: Frame, p2: Frame)
    requires IdentityMap(mem, p3, p2)
    requires forall x: Slot :: x.frame == p3 || x.frame == p2 ==> Read(mem', x) == Read(mem, x)
    ensures IdentityMap(mem', p3, p2)
  {
    assert forall i: nat :: Slot(p3, i).frame == p3 && Slot(p2, i).frame == p2;
  }

  lemma {:induction false} LowOffsets(vaddr: nat)
    requires vaddr / 4096 < P4_SPAN
    ensures OffsetForDepth(vaddr, 0) == 0
    ensures OffsetForDepth(vaddr, 1) < 512 && (OffsetForDepth(vaddr, 1) == 0 <==> vaddr < 0x4000_0000)
    ensures OffsetForDepth(vaddr, 2) < 512
    ensures vaddr < 0x4000_0000 ==> 512 * OffsetForDepth(vaddr, 2) + vaddr / 4096 % 512 == vaddr / 4096
  {
    assert vaddr < 0x80_0000_0000;
    assert vaddr < 0x4000_0000 ==> vaddr / 0x20_0000 < 512 && vaddr / 0x20_0000 == vaddr / 4096 / 512;
  }

  /**
    The hardware translates every address of the 48-bit space alike before and after a step of the kernel, unless the
    step names its page; that includes the identity map under P4 entry 0, huge pages and all.
   */
  lemma {:induction false} OtherTranslationsUnchanged(mem: Memory, segs: seq<Segment>, head: Frame, tail: Frame,
                                   mem': Memory, segs': seq<Segment>, head': Frame, tail': Frame,
                                   root: Frame, p3: Frame, p2: Frame, s: Space, op: Op, vaddr: nat)
    requires Represents(mem, segs, head, tail, root, p3, s) && Managed(op.v)
    requires Represents(mem', segs', head', tail', root, p3, Step(s, op)) && Confined(mem, s, mem')
    requires IdentityMap(mem, p3, p2) && p3 !in s.owner && p2 !in s.owner
    requires vaddr / 4096 < 512 * P4_SPAN && vaddr / 4096 != op.v
    ensures Translate(mem', root, vaddr, 0) == Translate(mem, root, vaddr, 0)
  {
    hide WellFormed, Encodes, Queue, Translate, OffsetForDepth, Step, Confined, IdentityMap;
    if Managed(vaddr / 4096) {
      StepWellFormed(s, op);
      TranslateAgrees(mem, segs, head, tail, root, p3, s, vaddr);
      TranslateAgrees(mem', segs', head', tail', root, p3, Step(s, op), vaddr);
    } else {
      IdentityKept(mem, s, mem', p3, p2);
      IdentityTranslates(mem, root, p3, p2, vaddr);
      IdentityTranslates(mem', root, p3, p2, vaddr);
    }
  }

  // ------------------------------------------------------------------
  // Heap addresses
  // ------------------------------------------------------------------

  /** `MMU_alloc_pages`: the address returned (0 for NULL) and the next free heap address. */
  function Grant(next: nat, n: int): (nat, nat) {
    if n <= 0 then (0, next)
    else if next + 4096 * n <= HEAP_END then (next, next + 4096 * n)
    else (0, HEAP_END)
  }

  /**
    The first table on the way to an address tells what it is for: the identity map and the rest of physical memory,
    stacks and heap have two entries of the P4 table each and share no table below it.
   */
  lemma {:induction false} RegionsApart(vaddr: nat)
    ensures HEAP_START <= vaddr < HEAP_END ==> OffsetForDepth(vaddr, 0) in {30, 31}
    ensures 0x100_0000_0000 <= vaddr < STACKS_END ==> OffsetForDepth(vaddr, 0) in {2, 3}
    ensures vaddr < 0x100_0000_0000 ==> OffsetForDepth(vaddr, 0) in {0, 1}
  {
    var i := vaddr / 0x80_0000_0000;
    assert 0x80_0000_0000 * i <= vaddr < 0x80_0000_0000 * (i + 1);
  }

  datatype Range = Range(base: nat, pages: int)

  /** The ranges successfully granted by a sequence of requests. */
  function Granted(next: nat, requests: seq<int>): seq<Range>
    decreases |requests|
  {
    if requests == [] then []
    else
      var (base, next') := Grant(next, requests[0]);
      (if base == 0 then [] else [Range(base, requests[0])]) + Granted(next', requests[1..])
  }

  ghost predicate Ascending(g: seq<Range>, lo: nat) {
    && (forall i :: 0 <= i < |g| ==> lo <= g[i].base && 0 < g[i].pages && g[i].base + 4096 * g[i].pages <= HEAP_END)
    && (forall i, j :: 0 <= i < j < |g| ==> g[i].base + 4096 * g[i].pages <= g[j].base)
  }

  lemma {:induction false} AscendingCons(r: Range, rest: seq<Range>, lo: nat, next: nat)
    requires Ascending(rest, next) && lo <= r.base && 0 < r.pages && r.base + 4096 * r.pages == next <= HEAP_END
    ensures Ascending([r] + rest, lo)
  {
    var g := [r] + rest;
    assert forall i :: 1 <= i < |g| ==> g[i] == rest[i - 1];
  }

  /** Ranges granted over a whole run lie inside the heap, in ascending order and pairwise disjoint. */
  lemma {:induction false} GrantedDisjoint(next: nat, requests: seq<int>)
    requires HEAP_START <= next <= HEAP_END
    ensures Ascending(Granted(next, requests), next)
    decreases |requests|
  {
    if requests != [] {
      var (base, next') := Grant(next, requests[0]);
      var rest := Granted(next', requests[1..]);
      GrantedDisjoint(next', requests[1..]);
      if base != 0 {
        AscendingCons(Range(base, requests[0]), rest, next, next');
      } else {
        assert [] + rest == rest;
      }
    }
  }

  /** The address space after `n` consecutive pages from `v` were demand-allocated. */
  ghost function DemandRange(s: Space, v: Page, n: nat): Space
    decreases n
  {
    if n == 0 then s else Demand(DemandRange(s, v, n - 1), v + n - 1).0
  }

  function Sum(ns: seq<int>): int
    decreases |ns|
  {
    if ns == [] then 0 else ns[0] + Sum(ns[1..])
  }

  lemma {:induction false} SumPositive(ns: seq<int>)
    requires forall i :: 0 <= i < |ns| ==> 0 < ns[i]
    ensures 0 <= Sum(ns)
    decreases |ns|
  {
    if ns != [] {
      SumPositive(ns[1..]);
    }
  }

  /** While there is room, each request is granted right behind the one before. */
  lemma {:induction false} GrantedAll(next: nat, requests: seq<int>)
    requires 0 < next && (forall i :: 0 <= i < |requests| ==> 0 < requests[i]) && next + 4096 * Sum(requests) <= HEAP_END
    ensures |Granted(next, requests)| == |requests|
    ensures forall i :: 0 <= i < |requests| ==>
              Granted(next, requests)[i].base == next + 4096 * Sum(requests[..i]) && Granted(next, requests)[i].pages == requests[i]
    decreases |requests|
  {
    if requests != [] {
      var n, rest := requests[0], requests[1..];
      SumPositive(rest);
      GrantedAll(next + 4096 * n, rest);
      var g := Granted(next, requests);
      assert g == [Range(next, n)] + Granted(next + 4096 * n, rest);
      forall i | 0 <= i < |requests|
        ensures g[i].base == next + 4096 * Sum(requests[..i]) && g[i].pages == requests[i]
      {
        if i > 0 {
          assert requests[..i][1..] == rest[..i - 1] && requests[..i][0] == n;
        }
      }
    }
  }

  /** A request that does not fit uses up all addresses left: nothing is granted after it, whatever would have fitted. */
  lemma {:induction false} GrantedNoMore(next: nat, n: int, requests: seq<int>)
    requires next <= HEAP_END < next + 4096 * n
    ensures Granted(next, [n] + requests) == []
    decreases |requests|
  {
    assert ([n] + requests)[1..] == requests;
    if requests != [] {
      if requests[0] > 0 {
        GrantedNoMore(HEAP_END, requests[0], requests[1..]);
        assert [requests[0]] + requests[1..] == requests;
      } else {
        GrantedNoMore(next, n, requests[1..]);
        assert ([n] + requests[1..])[1..] == requests[1..];
      }
    }
  }

  // ------------------------------------------------------------------
  // The memory manager
  // ------------------------------------------------------------------

  /** The address space after `n` pages from `v` downwards were demand-allocated. */
  ghost function DemandDown(s: Space, v: Page, n: nat): Space
    requires n <= v + 1
    decreases n
  {
    if n == 0 then s else Demand(DemandDown(s, v, n - 1), v - (n - 1)).0
  }

  function Upwards(v: Page, n: nat): seq<Page>
    decreases n
  {
    if n == 0 then [] else Upwards(v, n - 1) + [v + n - 1]
  }

  function Downwards(v: Page, n: nat): seq<Page>
    requires n <= v + 1
    decreases n
  {
    if n == 0 then [] else Downwards(v, n - 1) + [v - (n - 1)]
  }

  lemma {:induction false} DemandRangeEach(s: Space, v: Page, n: nat)
    ensures DemandRange(s, v, n) == DemandEach(s, Upwards(v, n)) && forall w: Page :: w in Upwards(v, n) <==> v <= w < v + n
    decreases n
  {
    hide Demand;
    if n > 0 {
      DemandRangeEach(s, v, n - 1);
      assert Upwards(v, n)[..|Upwards(v, n)| - 1] == Upwards(v, n - 1);
    }
  }

  lemma {:induction false} DemandDownEach(s: Space, v: Page, n: nat)
    requires n <= v + 1
    ensures DemandDown(s, v, n) == DemandEach(s, Downwards(v, n)) && forall w: Page :: w in Downwards(v, n) <==> v - n < w <= v
    decreases n
  {
    hide Demand;
    if n > 0 {
      DemandDownEach(s, v, n - 1);
      assert Downwards(v, n)[..|Downwards(v, n)| - 1] == Downwards(v, n - 1);
    }
  }

  /** `MMU_alloc_pages` on fresh addresses reserves all its pages if and only if there are frames for the tables missing. */
  lemma {:induction false} RangeReserved(s: Space, v: Page, n: nat)
    requires forall w :: v <= w < v + n ==> w !in s.pages
    ensures (forall w :: v <= w < v + n ==> w in DemandRange(s, v, n).pages) <==> Lack(s, Ways(Upwards(v, n))) <= |s.free|
  {
    hide DemandRange, DemandEach, Upwards, Ways, Lack, Furnished, RanOut;
    DemandRangeEach(s, v, n);
    DemandEachExact(s, Upwards(v, n));
  }

  /** So does `MMU_alloc_stack`. */
  lemma {:induction false} StackReserved(s: Space, v: Page, n: nat)
    requires n <= v + 1 && forall w: Page :: v - n < w <= v ==> w !in s.pages
    ensures (forall w: Page :: v - n < w <= v ==> w in DemandDown(s, v, n).pages) <==> Lack(s, Ways(Downwards(v, n))) <= |s.free|
  {
    hide DemandDown, DemandEach, Downwards, Ways, Lack, Furnished, RanOut;
    DemandDownEach(s, v, n);
    DemandEachExact(s, Downwards(v, n));
  }

  /**
    A stack is the ten pages from `top` downwards, but `MMU_free_stack` releases ten pages
    from `top` upwards: it keeps to its own stack exactly when the nine pages above,
    which belong to the stack allocated before, are not mapped.
   */
  lemma {:induction false} FreeStackWalksUp(s: Space, top: Page)
    requires 9 <= top
    ensures forall w: Page :: IsMapped(ReleaseRange(s, top, 10), w) <==> IsMapped(s, w) && !(top <= w < top + 10)
    ensures (forall w: Page :: IsMapped(s, w) && !IsMapped(ReleaseRange(s, top, 10), w) ==> top - 9 <= w <= top)
       <==> (forall w: Page :: top < w < top + 10 ==> !IsMapped(s, w))
  {
    hide IsMapped, ReleaseRange;
    forall w: Page
      ensures IsMapped(ReleaseRange(s, top, 10), w) <==> IsMapped(s, w) && !(top <= w < top + 10)
    {
      ReleaseRangeUnmaps(s, top, 10, w);
    }
  }

  /** A process frees the stack it runs on: its top page is gone, and a touch of it finds neither a frame nor a reservation. */
  lemma {:induction false} FreeStackUnmapsTop(s: Space, top: Page)
    requires IsMapped(s, top)
    ensures var s' := ReleaseRange(s, top, 10); top !in s'.pages && Fault(s', top) == s'
  {
    ReleaseRangeGone(s, top, 10, top);
  }

  lemma {:induction false} ReleaseRangeGone(s: Space, v: Page, n: nat, w: Page)
    requires IsMapped(s, w) && v <= w < v + n
    ensures w !in ReleaseRange(s, v, n).pages
    decreases n
  {
    if w < v + n - 1 {
      ReleaseRangeGone(s, v, n - 1, w);
    } else {
      ReleaseRangeUnmaps(s, v, n - 1, w);
    }
  }

  /** The page of the first stack handed out. */
  const FIRST_STACK: Page := STACKS_END / 4096 - 1

  /** `n` pages down from the first stack's top are reserved, none is mapped, and the tables for them are there. */
  ghost predicate StacksReserved(s: Space, n: nat) {
    && (forall d :: 1 <= d <= 3 ==> On(FIRST_STACK, d) in s.tables)
    && (forall v :: FIRST_STACK - n < v <= FIRST_STACK ==> v in s.pages)
    && (forall v :: !IsMapped(s, v))
  }

  lemma {:induction false} SameTables(v: Page)
    requires FIRST_STACK - 20 < v <= FIRST_STACK
    ensures forall d :: 1 <= d <= 3 ==> On(v, d) == On(FIRST_STACK, d)
  {
    assert v / 512 == FIRST_STACK / 512;
    assert Ancestor(v, 3) == Ancestor(FIRST_STACK, 3) && Ancestor(v, 2) == Ancestor(FIRST_STACK, 2);
    assert Ancestor(v, 1) == Ancestor(FIRST_STACK, 1);
  }

  lemma {:induction false} FirstDemand(s: Space)
    requires s.tables.Keys == {ROOT} && s.pages == map[] && 3 <= |s.free|
    ensures StacksReserved(Demand(s, FIRST_STACK).0, 1) && Demand(s, FIRST_STACK).0.free == s.free[3..]
  {
    var n1, n2, n3 := On(FIRST_STACK, 1), On(FIRST_STACK, 2), On(FIRST_STACK, 3);
    var s1 := AddTable(s, n1);
    var s2 := AddTable(s1, n2);
    var s3 := AddTable(s2, n3);
    assert Build(s3, FIRST_STACK, 4) == (s3, true);
    assert Build(s2, FIRST_STACK, 3) == (s3, true);
    assert Build(s1, FIRST_STACK, 2) == (s3, true);
    assert Build(s, FIRST_STACK, 1) == (s3, true);
    assert s3.free == s.free[3..];
  }

  lemma {:induction false} NextDemand(s: Space, n: nat)
    requires StacksReserved(s, n) && n < 20
    ensures StacksReserved(Demand(s, FIRST_STACK - n).0, n + 1) && Demand(s, FIRST_STACK - n).0.free == s.free
  {
    var v: Page := FIRST_STACK - n;
    SameTables(v);
    assert On(v, 1) in s.tables && On(v, 2) in s.tables && On(v, 3) in s.tables;
    assert Build(s, v, 3) == (s, true);
    assert Build(s, v, 2) == (s, true);
    assert Build(s, v, 1) == (s, true);
    var s' := Reserve(s, v);
    assert !IsMapped(s, v) && Demand(s, v) == (s', true);
    assert forall w :: IsMapped(s', w) ==> IsMapped(s, w);
  }

  lemma {:induction false} ReserveDown(s: Space, k: nat, n: nat)
    requires StacksReserved(s, k) && k + n <= 20
    ensures var s' := DemandDown(s, FIRST_STACK - k, n); StacksReserved(s', k + n) && s'.free == s.free
    decreases n
  {
    hide StacksReserved, Demand;
    if n > 0 {
      ReserveDown(s, k, n - 1);
      NextDemand(DemandDown(s, FIRST_STACK - k, n - 1), k + n - 1);
    }
  }

  /** The first stack from a fresh address space. */
  lemma {:induction false} FirstStack(s: Space, n: nat)
    requires s.tables.Keys == {ROOT} && s.pages == map[] && 3 <= |s.free| && 1 <= n <= 10
    ensures var s' := DemandDown(s, FIRST_STACK, n); StacksReserved(s', n) && s'.free == s.free[3..]
    decreases n
  {
    hide StacksReserved, Demand;
    if n == 1 {
      FirstDemand(s);
      assert DemandDown(s, FIRST_STACK, 0) == s;
    } else {
      FirstStack(s, n - 1);
      NextDemand(DemandDown(s, FIRST_STACK, n - 1), n - 1);
    }
  }

  /** Two stacks are allocated at boot and a page of each is touched; freeing the second unmaps a page of the first. */
  lemma {:induction false} SecondStackTakesFirst(free: seq<Frame>)
    requires 6 <= |free|
    ensures var both := DemandDown(DemandDown(InitialSpace(free), FIRST_STACK, 10), FIRST_STACK - 10, 10);
            var s := Fault(Fault(both, FIRST_STACK - 1), FIRST_STACK - 10);
            && IsMapped(s, FIRST_STACK - 1) && IsMapped(s, FIRST_STACK - 10)
            && !IsMapped(ReleaseRange(s, FIRST_STACK - 10, 10), FIRST_STACK - 1)
  {
    hide DemandDown, ReleaseRange;
    var s0 := InitialSpace(free);
    FirstStack(s0, 10);
    var one := DemandDown(s0, FIRST_STACK, 10);
    ReserveDown(one, 10, 10);
    var both := DemandDown(one, FIRST_STACK - 10, 10);
    assert FIRST_STACK - 1 in both.pages && FIRST_STACK - 10 in both.pages;
    assert !IsMapped(both, FIRST_STACK - 1) && !IsMapped(both, FIRST_STACK - 10);
    var s1 := Fault(both, FIRST_STACK - 1);
    assert s1.pages == both.pages[FIRST_STACK - 1 := Mapped(both.free[0])];
    ReleaseRangeUnmaps(Fault(s1, FIRST_STACK - 10), FIRST_STACK - 10, 10, FIRST_STACK - 1);
  }

  /** One event of a run: a paging operation, or a client store of `w` to the word at a virtual address. */
  datatype Event = Paging(op: Op) | Store(vaddr: nat, w: Word)

  predicate ManagedEvent(e: Event) {
    match e
    case Paging(op) => Managed(op.v)
    case Store(vaddr, w) => Managed(vaddr / 4096) && InRange(w)
  }

  /** The page an event is about. */
  function PageOf(e: Event): Page {
    match e
    case Paging(op) => op.v
    case Store(vaddr, _) => vaddr / 4096
  }

  /** A mapped page that is still mapped to the same frame, with every word in it unchanged. */
  ghost predicate Spared(mem: Memory, s: Space, mem': Memory, s': Space, v: Page)
    requires IsMapped(s, v)
  {
    IsMapped(s', v) && s'.pages[v] == s.pages[v] && forall x: Slot :: x.frame == s.pages[v].frame ==> Read(mem', x) == Read(mem, x)
  }

  /** All mapped pages but those of the first `n` events. */
  ghost predicate SparedAll(mem: Memory, s: Space, mem': Memory, s': Space, events: seq<Event>) {
    forall v :: IsMapped(s, v) && (forall e :: e in events ==> PageOf(e) != v) ==> Spared(mem, s, mem', s', v)
  }

  lemma {:induction false} KeptSpares(mem: Memory, s: Space, mem': Memory, s': Space, v: Page)
    requires WellFormed(s) && WellFormed(s') && Kept(mem, s, mem', s')
    requires IsMapped(s, v) && v in s'.pages && s'.pages[v] == s.pages[v]
    ensures Spared(mem, s, mem', s', v)
  {
    hide WellFormed;
    PageOwner(s, v);
    PageOwner(s', v);
  }

  /** What the kernel does for one page leaves every other mapped page's words alone. */
  lemma {:induction false} StepSpares(mem: Memory, s: Space, mem': Memory, op: Op)
    requires WellFormed(s) && Managed(op.v) && Kept(mem, s, mem', Step(s, op))
    ensures forall v :: IsMapped(s, v) && v != op.v ==> Spared(mem, s, mem', Step(s, op), v)
  {
    hide WellFormed, Step, Kept, Managed;
    StepWellFormed(s, op);
    forall v | IsMapped(s, v) && v != op.v
      ensures Spared(mem, s, mem', Step(s, op), v)
    {
      KeptSpares(mem, s, mem', Step(s, op), v);
    }
  }

  lemma {:induction false} StoreSpares(mem: Memory, s: Space, u: Page, index: nat, w: Word)
    requires WellFormed(s) && IsMapped(s, u)
    ensures forall v :: IsMapped(s, v) && v != u ==> Spared(mem, s, mem[Slot(s.pages[u].frame, index) := w], s, v)
  {
    hide WellFormed;
    PageOwner(s, u);
    forall v | IsMapped(s, v) && v != u
      ensures Spared(mem, s, mem[Slot(s.pages[u].frame, index) := w], s, v)
    {
      PageOwner(s, v);
    }
  }

  lemma {:induction false} SparedThen(mem: Memory, s: Space, mem1: Memory, s1: Space, mem2: Memory, s2: Space,
                                      events: seq<Event>, e: Event)
    requires SparedAll(mem, s, mem1, s1, events)
    requires forall v :: IsMapped(s1, v) && v != PageOf(e) ==> Spared(mem1, s1, mem2, s2, v)
    ensures SparedAll(mem, s, mem2, s2, events + [e])
  {
    forall v | IsMapped(s, v) && (forall d :: d in events + [e] ==> PageOf(d) != v)
      ensures Spared(mem, s, mem2, s2, v)
    {
      assert e in events + [e] && forall d :: d in events ==> d in events + [e];
      assert Spared(mem, s, mem1, s1, v) && Spared(mem1, s1, mem2, s2, v);
    }
  }

  lemma {:induction false} AllSpared(mem: Memory, s: Space)
    ensures forall v :: IsMapped(s, v) ==> Spared(mem, s, mem, s, v)
  {
  }

  /** The paging operations among the events. */
  function Operations(events: seq<Event>): seq<Op>
    decreases |events|
  {
    if events == [] then []
    else
      (match events[0] case Paging(op) => [op] case Store(_, _) => []) + Operations(events[1..])
  }

  lemma {:induction false} OperationsSnoc(events: seq<Event>, e: Event)
    ensures Operations(events + [e]) == Operations(events) + Operations([e])
    decreases |events|
  {
    if events == [] {
      assert [] + [e] == [e];
    } else {
      assert (events + [e])[1..] == events[1..] + [e] && (events + [e])[0] == events[0];
      OperationsSnoc(events[1..], e);
      var rest := Operations(events[1..]);
      hide Operations;
      match events[0]
      case Paging(op) => assert [op] + (rest + Operations([e])) == ([op] + rest) + Operations([e]);
      case Store(_, _) =>
    }
  }

  lemma {:induction false} RunSnoc(s: Space, ops: seq<Op>, op: Op)
    ensures Run(s, ops + [op]) == Step(Run(s, ops), op)
    decreases |ops|
  {
    hide Step;
    if ops == [] {
      assert [] + [op] == [op];
      assert Run(s, [op]) == Run(Step(s, op), [op][1..]);
    } else {
      assert (ops + [op])[1..] == ops[1..] + [op];
      RunSnoc(Step(s, ops[0]), ops[1..], op);
    }
  }

  lemma {:induction false} SegmentsAreQueue(mem: Memory, segs: seq<Segment>)
    requires NonEmpty(segs) && NoDup(Expand(segs)) && NULL !in Expand(segs)
    ensures Queue(mem, segs, NULL, NULL, Expand(segs))
  {
    var free := Expand(segs);
    assert free[..|free|] == free && free[|free|..] == [];
  }

  lemma {:induction false} PoolStart(p: FramePool.Pool, ops: seq<FramePool.Op>)
    requires p.given == [] && p.returned == []
    ensures FramePool.AllowedRun(p, ops[..0]) && FramePool.Run(p, ops[..0]) == p
    ensures FramePool.Fifo(p, p.free)
  {
    assert ops[..0] == [];
  }

  /** A frame a client gives back or writes to is not in the queue. */
  lemma {:induction false} HeldApart(p: FramePool.Pool, op: FramePool.Op, all: set<Frame>)
    requires FramePool.Partition(p, all) && FramePool.Allowed(p, op) && NULL !in all
    ensures op.Free? ==> op.f !in p.free && op.f != NULL
    ensures op.Store? ==> op.s.frame !in p.free
  {
  }

  lemma {:induction false} RunNil(s: Space)
    ensures Run(s, []) == s
  {
  }

  lemma {:induction false} RunEvent(s: Space, events: seq<Event>, e: Event)
    ensures e.Paging? ==> Run(s, Operations(events + [e])) == Step(Run(s, Operations(events)), e.op)
    ensures e.Store? ==> Run(s, Operations(events + [e])) == Run(s, Operations(events))
  {
    hide Step, Run;
    OperationsSnoc(events, e);
    assert [e][1..] == [];
    match e
    case Paging(op) =>
      assert Operations([e]) == [op] + [] == [op];
      RunSnoc(s, Operations(events), op);
    case Store(_, _) =>
      assert Operations([e]) == [];
      assert Operations(events) + [] == Operations(events);
  }

  lemma {:induction false} BuildSkips(s: Space, v: Page, lo: nat, hi: nat)
    requires 0 < lo <= hi <= 4 && Below(s, v, hi - 1)
    ensures Build(s, v, lo) == Build(s, v, hi) && BuildReaches(s, v, lo) == BuildReaches(s, v, hi)
    decreases 4 - lo
  {
    if lo < hi {
      assert On(v, lo) in s.tables;
      BuildSkips(s, v, lo + 1, hi);
    }
  }

  /** The tables on the way to `v` exist down to `depth`. */
  ghost predicate Below(s: Space, v: Page, depth: nat)
    requires depth <= 4
  {
    forall d :: 0 <= d <= depth && d < 4 ==> On(v, d) in s.tables
  }

  /** The tables reach down to `depth`, no further, and `ent` is the entry of the missing table or of the page. */
  ghost predicate Reached(s: Space, v: Page, depth: nat, ent: Slot) {
    && depth <= 3
    && On(v, depth) in s.tables
    && !IsMapped(s, v)
    && Live(s, On(v, depth + 1)) && ent == SlotOf(s, On(v, depth + 1))
    && (depth < 3 ==> On(v, depth + 1) !in s.tables)
  }

  /** What `pt_walk` finds out about page `v`. */
  ghost predicate Walked(mem: Memory, s: Space, vaddr: nat, v: Page, depth: nat, ent: Slot) {
    && depth <= 4
    && Below(s, v, depth)
    && (depth < 4 ==> Reached(s, v, depth, ent))
    && (depth < 3 ==> v !in s.pages)
    && (depth == 3 ==> (Read(mem, ent).demand <==> v in s.pages))
    && (depth == 4 ==> IsMapped(s, v) && ent == Slot(s.pages[v].frame, vaddr % 4096))
  }

  lemma {:induction false} OnPage(v: Page)
    ensures On(v, 4) == Node(4, v)
  {
  }

  lemma {:induction false} BuildUnfold(s: Space, v: Page, depth: nat, ent: Slot)
    requires Reached(s, v, depth, ent)
    ensures depth == 3 ==> Build(s, v, 4) == (s, true) && BuildReaches(s, v, 4)
    ensures depth < 3 ==>
              Build(s, v, depth + 1) == if s.free == [] then (s, false) else Build(AddTable(s, On(v, depth + 1)), v, depth + 2)
    ensures depth < 3 ==>
              BuildReaches(s, v, depth + 1) ==
              (s.free == [] || (s.free[0] < REACH && BuildReaches(AddTable(s, On(v, depth + 1)), v, depth + 2)))
  {
  }

  /** A table just added has no tables below it. */
  lemma {:induction false} ChildMissing(s: Space, v: Page, depth: nat)
    requires WellFormed(s) && depth < 4 && s.free != [] && On(v, depth) !in s.tables
    ensures On(v, depth + 1) !in AddTable(s, On(v, depth)).tables
  {
    assert Parent(On(v, depth + 1)) == On(v, depth);
  }

  /** Adding the missing table moves the frontier one level down. */
  lemma {:induction false} Descend(s: Space, vaddr: nat, depth: nat, ent: Slot)
    requires WellFormed(s) && Managed(vaddr / 4096) && Reached(s, vaddr / 4096, depth, ent) && depth < 3 && s.free != []
    ensures Reached(AddTable(s, On(vaddr / 4096, depth + 1)), vaddr / 4096, depth + 1,
                    Slot(s.free[0], OffsetForDepth(vaddr, depth + 1)))
  {
    hide OffsetForDepth, Ancestor, WellFormed;
    var v := vaddr / 4096;
    ManagedTop(v);
    AddTableWellFormed(s, On(v, depth + 1));
    EntrySlot(AddTable(s, On(v, depth + 1)), vaddr, depth + 1);
    ChildMissing(s, v, depth + 1);
  }

  lemma {:induction false} BackedRefl(s: Space, s': Space)
    requires s'.owner == s.owner
    ensures StillBacked(s, s')
  {
  }

  /** A further step, after steps that unmapped nothing. */
  lemma {:induction false} KeptOn(mem: Memory, s: Space, mem1: Memory, s1: Space, mem2: Memory, s2: Space)
    requires Kept(mem, s, mem1, s1) && Kept(mem1, s1, mem2, s2) && StillBacked(s, s1)
    ensures Kept(mem, s, mem2, s2)
    ensures StillBacked(s1, s2) ==> StillBacked(s, s2)
  {
    hide Kept;
    KeptThen(mem, s, mem1, s1, mem2, s2);
  }

  /** Releasing a page makes no frame back one, so what is held afterwards was held before. */
  lemma {:induction false} ReleaseHolds(s: Space, s1: Space, v: Page)
    ensures forall f :: Held(s, Release(s1, v), f) ==> Held(s, s1, f)
  {
  }

  lemma {:induction false} KeptWithin(mem: Memory, s: Space, mem': Memory, s': Space)
    requires Kept(mem, s, mem', s')
    ensures Within(mem, s, mem', s')
  {
  }

  /** The frames behind the mapped pages of a range are in the kernel's reach. */
  ghost predicate RangeReaches(s: Space, v: Page, n: nat) {
    forall w :: v <= w < v + n && IsMapped(s, w) ==> s.pages[w].frame < REACH
  }

  lemma {:induction false} RangeReachesNone(s: Space, v: Page)
    ensures RangeReaches(s, v, 0)
  {
  }

  lemma {:induction false} RangeReachesNext(s: Space, v: Page, i: nat, n: nat)
    requires RangeReaches(s, v, i) && i < n
    ensures var next := Reaches(ReleaseRange(s, v, i), ReleaseOp(v + i));
            (next ==> RangeReaches(s, v, i + 1)) && (!next ==> !RangeReaches(s, v, n))
  {
    ReleaseRangeUnmaps(s, v, i, v + i);
  }

  /** Consecutive demand allocations from page `v` on all go through. */
  ghost predicate DemandRangeReaches(s: Space, v: Page, n: nat)
    decreases n
  {
    n == 0 || (DemandRangeReaches(s, v, n - 1) && Reaches(DemandRange(s, v, n - 1), DemandOp(v + n - 1)))
  }

  /** The demand allocations of `MMU_alloc_pages` go through. */
  ghost predicate GrantReaches(s: Space, next: nat, n: int)
  {
    var (_, next') := Grant(next, n);
    next <= next' && DemandRangeReaches(s, next / 4096, (next' - next) / 4096)
  }

  lemma {:induction false} RangeStart(s: Space, v: Page)
    ensures DemandRange(s, v, 0) == s && DemandRangeReaches(s, v, 0)
  {
  }

  lemma {:induction false} RangeNext(s: Space, v: Page, i: nat)
    ensures DemandRange(s, v, i + 1) == Demand(DemandRange(s, v, i), v + i).0
    ensures DemandRangeReaches(s, v, i + 1) <==> DemandRangeReaches(s, v, i) && Reaches(DemandRange(s, v, i), DemandOp(v + i))
  {
  }

  lemma {:induction false} RangeStops(s: Space, v: Page, i: nat, n: nat)
    requires !DemandRangeReaches(s, v, i) && i <= n
    ensures !DemandRangeReaches(s, v, n)
    decreases n
  {
    if i < n {
      RangeStops(s, v, i, n - 1);
    }
  }

  /** The range granted ends where the heap does, or after `n` pages. */
  lemma {:induction false} GrantEnds(s: Space, next: nat, n: nat, i: nat)
    requires 0 < n && i <= n && next % 4096 == 0 && 0 < next && next + 4096 * i <= HEAP_END
    requires i == n || next + 4096 * i == HEAP_END
    ensures Grant(next, n) == if i == n then (next, next + 4096 * n) else (0, HEAP_END)
    ensures GrantReaches(s, next, n) <==> DemandRangeReaches(s, next / 4096, i)
  {
    hide DemandRangeReaches;
    assert (next + 4096 * i - next) / 4096 == i;
  }

  lemma {:induction false} GrantStops(s: Space, next: nat, n: nat, i: nat)
    requires i < n && 0 < next && next % 4096 == 0 && next + 4096 * (i + 1) <= HEAP_END
    requires !DemandRangeReaches(s, next / 4096, i + 1)
    ensures !GrantReaches(s, next, n)
  {
    hide DemandRangeReaches;
    var next' := Grant(next, n).1;
    assert i + 1 <= (next' - next) / 4096;
    RangeStops(s, next / 4096, i + 1, (next' - next) / 4096);
  }

  /** The demand allocations of `MMU_alloc_stack` go through. */
  ghost predicate DemandDownReaches(s: Space, v: Page, n: nat)
    requires n <= v + 1
    decreases n
  {
    n == 0 || (DemandDownReaches(s, v, n - 1) && Reaches(DemandDown(s, v, n - 1), DemandOp(v - (n - 1))))
  }

  lemma {:induction false} DownStops(s: Space, v: Page, i: nat, n: nat)
    requires i < n <= v + 1 && !Reaches(DemandDown(s, v, i), DemandOp(v - i))
    ensures !DemandDownReaches(s, v, n)
    decreases n
  {
    hide Reaches, DemandDown;
    if i < n - 1 {
      DownStops(s, v, i, n - 1);
    }
  }

  lemma {:induction false} ReachesNone(s: Space)
    ensures RunReaches(s, Operations([]))
  {
  }

  lemma {:induction false} ReachesFirst(s: Space, events: seq<Event>)
    requires events != []
    ensures var e := events[0];
            RunReaches(s, Operations(events)) ==
            if e.Paging? then Reaches(s, e.op) && RunReaches(Step(s, e.op), Operations(events[1..]))
            else RunReaches(s, Operations(events[1..]))
  {
    hide Reaches, Step;
    var rest := Operations(events[1..]);
    match events[0]
    case Paging(op) => assert ([op] + rest)[1..] == rest;
    case Store(_, _) => assert [] + rest == rest;
  }

  class Mmu {
    var mem: Memory
    var freeSegments: seq<Segment>
    var freePageHead: Frame
    var freePageTail: Frame
    var pageTable: Frame
    var nextHeapVaddr: nat
    var nextStackVaddr: nat
    var irqDepth: nat
    var hung: bool               // the kernel touched a frame by an address that does not lead there
    ghost var identity: Frame    // the frame of identity_p3
    ghost var space: Space

    /** The zeroed state before `MMU_init`, over whatever the machine's memory holds. */
    constructor (contents: Memory)
      ensures mem == contents && irqDepth == 0 && !hung
    {
      mem, freeSegments, freePageHead, freePageTail, pageTable := contents, [], NULL, NULL, NULL;
      nextHeapVaddr, nextStackVaddr, irqDepth, hung := 0, 0, 0, false;
      identity, space := NULL, Space([], map[], map[], map[]);
    }

    ghost predicate QueueValid()
      reads this
    {
      Queue(mem, freeSegments, freePageHead, freePageTail, space.free)
    }

    ghost predicate Valid()
      reads this
    {
      !hung && Represents(mem, freeSegments, freePageHead, freePageTail, pageTable, identity, space)
    }

    ghost predicate HeapValid()
      reads this
    {
      Valid() && HEAP_START <= nextHeapVaddr <= HEAP_END && nextHeapVaddr % 4096 == 0
    }

    /** `MMU_alloc_frame`: the head of the queue, NULL exactly when the queue is empty. */
    method AllocFrame() returns (f: Frame)
      requires QueueValid()
      modifies `freeSegments, `freePageHead, `space
      ensures QueueValid()
      ensures (f == NULL) == (old(space.free) == [])
      ensures f == NULL ==> space == old(space)
      ensures f != NULL ==> f == old(space.free)[0] && space == old(space).(free := old(space.free)[1..])
    {
      if freeSegments != [] {
        BumpKeepsQueue(mem, freeSegments, freePageHead, freePageTail, space.free);
        f := freeSegments[0].base;
        var head := Segment(freeSegments[0].base + 1, freeSegments[0].len - 1);
        freeSegments := [head] + freeSegments[1..];
        if head.len == 0 {
          freeSegments := freeSegments[1..];
        }
        assert freeSegments == Bump(old(freeSegments));
        space := space.(free := space.free[1..]);
        return;
      }
      UnlinkKeepsQueue(mem, freePageHead, freePageTail, space.free);
      if freePageHead == NULL {
        return NULL;
      }
      f := freePageHead;
      freePageHead := Read(mem, Slot(freePageHead, 0)).address;
      space := space.(free := space.free[1..]);
    }

    /** `MMU_free_frame`: `f` joins the end of the queue, unless the link cannot be written into it. */
    method FreeFrame(f: Frame)
      requires !hung && QueueValid() && f !in space.free && f != NULL
      modifies `mem, `freePageHead, `freePageTail, `space, `hung
      ensures hung <==> REACH <= f
      ensures hung ==> space == old(space) && mem == TailLinked(old(mem), old(freePageHead), old(freePageTail), f)
      ensures !hung ==> QueueValid() && space == old(space).(free := old(space.free) + [f])
      ensures !hung ==> mem == Relink(old(mem), old(freePageHead), old(freePageTail), f)
      ensures !hung ==> freePageHead == (if old(freePageHead) == NULL then f else old(freePageHead)) && freePageTail == f
    {
      hide Queue;
      if f < REACH {
        RelinkAppends(mem, freeSegments, freePageHead, freePageTail, space.free, f);
      }
      if freePageHead == NULL {
        freePageHead := f;
        freePageTail := f;
      } else {
        TailQueued(mem, freeSegments, freePageHead, freePageTail, space.free);
        mem := mem[Slot(freePageTail, 0) := Pointer(f)];
        freePageTail := f;
      }
      if f >= REACH {
        hung := true;
        return;
      }
      mem := mem[Slot(f, 0) := Pointer(NULL)];
      space := space.(free := space.free + [f]);
    }

    /**
      Any run of clients that take frames, give back frames they hold and write anything into
      frames they hold: the frames handed out are those of the FIFO queue, in its order. It
      stops exactly at the first frame given back that is out of the kernel's reach.
     */
    method Serve(ops: seq<FramePool.Op>, ghost p: FramePool.Pool, ghost all: set<Frame>) returns (given: seq<Frame>)
      requires !hung && QueueValid() && p.free == space.free && p.given == [] && p.returned == []
      requires FramePool.AllowedRun(p, ops) && FramePool.Partition(p, all) && NULL !in all
      modifies `mem, `freeSegments, `freePageHead, `freePageTail, `space, `hung
      ensures hung <==> exists op :: op in ops && op.Free? && REACH <= op.f
      ensures !hung ==> QueueValid()
      ensures !hung ==> space.free == FramePool.Run(p, ops).free && given == FramePool.Run(p, ops).given
      ensures !hung ==> given + space.free == p.free + FramePool.Run(p, ops).returned
      ensures !hung ==> FramePool.Partition(FramePool.Run(p, ops), all)
    {
      hide Queue, FramePool.Run, FramePool.AllowedRun, FramePool.Partition, Relink, TailLinked;
      given := [];
      ghost var q := p;
      PoolStart(p, ops);
      for i := 0 to |ops|
        invariant !hung && forall j :: 0 <= j < i ==> !(ops[j].Free? && REACH <= ops[j].f)
        invariant FramePool.AllowedRun(p, ops[..i]) && q == FramePool.Run(p, ops[..i])
        invariant QueueValid() && q.free == space.free && given == q.given
        invariant FramePool.Partition(q, all) && FramePool.Fifo(q, p.free)
      {
        FramePool.RunPrefix(p, ops, i);
        FramePool.StepConserves(q, ops[i], all, p.free);
        HeldApart(q, ops[i], all);
        match ops[i] {
          case Alloc =>
            var f := AllocFrame();
            if f != NULL {
              given := given + [f];
            }
          case Free(f) =>
            FreeFrame(f);
            if hung {
              assert ops[i] in ops;
              return;
            }
          case Store(x, w) =>
            QueueFrame(mem, mem[x := w], freeSegments, freePageHead, freePageTail, space.free);
            mem := mem[x := w];
        }
        q := FramePool.Step(q, ops[i]);
      }
      assert ops[..|ops|] == ops;
    }

    /** `init_empty_page_table`: the frame is cleared, unless it is out of reach. */
    method InitEmptyPageTable(f: Frame)
      requires !hung
      modifies `mem, `hung
      ensures hung <==> REACH <= f
      ensures hung ==> mem == old(mem)
      ensures !hung ==> forall x: Slot ::
                Read(mem, x) == (if x.frame == f && x.index < 512 then Pointer(NULL) else Read(old(mem), x))
    {
      if f >= REACH {
        hung := true;
        return;
      }
      for i := 0 to 512
        invariant !hung
        invariant forall x: Slot :: Read(mem, x) ==
                    (if x.frame == f && x.index < i then Pointer(NULL) else Read(old(mem), x))
      {
        mem := mem[Slot(f, i) := Pointer(NULL)];
      }
    }

    /** `pt_walk`: how deep the tables reach on the way to `vaddr`, and the entry the walk stopped at. */
    method PtWalk(vaddr: nat) returns (depth: nat, ent: Slot)
      requires Valid() && Managed(vaddr / 4096)
      ensures Walked(mem, space, vaddr, vaddr / 4096, depth, ent)
    {
      hide Encodes, WellFormed, Queue, Managed, Ancestor;
      ghost var v := vaddr / 4096;
      ManagedTop(v);
      TableOwner(space, ROOT);
      OnPage(v);
      var table := pageTable;
      var i := 0;
      while i < 4
        invariant i <= 4
        invariant Below(space, v, i)
        invariant i < 4 ==> table == space.tables[On(v, i)]
        invariant i == 4 ==> IsMapped(space, v) && table == space.pages[v].frame
      {
        WalkStep(mem, space, vaddr, i);
        ent := Slot(table, OffsetForDepth(vaddr, i));
        if !Read(mem, ent).present {
          if i < 3 {
            MissingTable(space, v, i + 1);
          }
          return i, ent;
        }
        table := Read(mem, ent).address;
        i := i + 1;
      }
      ent := Slot(table, OffsetForDepth(vaddr, 4));
      return 4, ent;
    }

    /** `PT_init`: the two tables of the identity map, which lie in the kernel's own data. */
    method PtInit(p3: Frame, p2: Frame)
      requires !hung && p3 != p2 && p3 < REACH && p2 < REACH
      modifies `mem, `hung
      ensures !hung && IdentityMap(mem, p3, p2)
      ensures forall x: Slot :: x.frame != p3 && x.frame != p2 ==> Read(mem, x) == Read(old(mem), x)
    {
      InitEmptyPageTable(p3);
      mem := mem[Slot(p3, 0) := EntryFor(p2)];
      ghost var mem0 := mem;
      for i := 0 to 512
        invariant !hung
        invariant forall j :: 0 <= j < i ==> Read(mem, Slot(p2, j)) == EntryFor(512 * j).(huge := true)
        invariant forall x: Slot :: x.frame != p2 ==> Read(mem, x) == Read(mem0, x)
      {
        mem := mem[Slot(p2, i) := EntryFor(512 * i)];
        mem := mem[Slot(p2, i) := Read(mem, Slot(p2, i)).(huge := true)];
      }
      assert forall j: nat :: Slot(p3, j).frame == p3;
    }

    /** The identity map is set up in frames the allocator does not manage. */
    ghost predicate IdentityValid(p2: Frame)
      reads this
    {
      IdentityMap(mem, identity, p2) && identity !in space.owner && p2 !in space.owner
    }

    /**
      `MMU_init` from the free segments computed at boot: -1 exactly when there are none. The boot loader's own tables
      map the first gigabyte, like the identity map set up here, so the P4 table must be there.
     */
    method Init(segs: seq<Segment>, p3: Frame, p2: Frame) returns (r: int)
      requires !hung && NonEmpty(segs) && NoDup(Expand(segs)) && NULL !in Expand(segs)
      requires p3 != p2 && p3 !in Expand(segs) && p2 !in Expand(segs) && p3 < REACH && p2 < REACH
      modifies this
      ensures hung <==> Expand(segs) != [] && REACH <= Expand(segs)[0]
      ensures r == if Expand(segs) == [] then -1 else 0
      ensures r == 0 && !hung ==> HeapValid() && StacksValid() && space == InitialSpace(Expand(segs))
      ensures r == 0 && !hung ==> nextHeapVaddr == HEAP_START && nextStackVaddr == STACKS_END - 8
      ensures r == 0 && !hung ==> identity == p3 && IdentityValid(p2)
    {
      hide WellFormed, Encodes, Queue, IdentityMap, Represents, InitialSpace, IdentityValid;
      freeSegments, freePageHead, freePageTail := segs, NULL, NULL;
      nextHeapVaddr, nextStackVaddr := HEAP_START, STACKS_END - 8;
      space := space.(free := Expand(segs));
      SegmentsAreQueue(mem, segs);
      pageTable := AllocFrame();
      if pageTable == NULL {
        return -1;
      }
      ghost var mem0 := mem;
      PtInit(p3, p2);
      QueueFrame(mem0, mem, freeSegments, freePageHead, freePageTail, space.free);
      InitRoot(segs, p3, p2);
      return 0;
    }

    /** `PT_page_table_init` for the first frame. */
    method InitRoot(ghost segs: seq<Segment>, p3: Frame, ghost p2: Frame)
      requires !hung && NoDup(Expand(segs)) && NULL !in Expand(segs) && Expand(segs) != []
      requires p3 !in Expand(segs) && p2 !in Expand(segs) && IdentityMap(mem, p3, p2)
      requires pageTable == Expand(segs)[0]
      requires Queue(mem, freeSegments, freePageHead, freePageTail, Expand(segs)[1..])
      modifies `mem, `identity, `space, `hung
      ensures hung <==> REACH <= Expand(segs)[0]
      ensures !hung ==> Valid() && space == InitialSpace(Expand(segs)) && identity == p3 && IdentityValid(p2)
    {
      hide WellFormed, Encodes, Queue, IdentityMap;
      ghost var mem1 := mem;
      InitEmptyPageTable(pageTable);
      if hung {
        return;
      }
      mem := mem[Slot(pageTable, 0) := EntryFor(p3)];
      identity := p3;
      space := InitialSpace(Expand(segs));
      InitialRepresents(mem1, mem, freeSegments, freePageHead, freePageTail, p3, Expand(segs));
      IdentityApart(mem1, mem, p3, p2);
    }

    /** `PT_addr_virt_to_phys`: NULL when the page is not mapped; right exactly when `vaddr` is page-aligned. */
    method VirtToPhys(vaddr: nat) returns (addr: nat)
      requires Valid() && Managed(vaddr / 4096)
      ensures var t := FlatLookup(space, vaddr / 4096);
              && addr == (if t.None? then 0 else 4096 * t.value + 8 * (vaddr % 4096))
              && (t.Some? ==> (addr == 4096 * t.value + vaddr % 4096 <==> vaddr % 4096 == 0))
    {
      hide WellFormed, Encodes, Queue, Managed, OffsetForDepth, Ancestor;
      var depth, ent := PtWalk(vaddr);
      if depth == 4 {
        return 4096 * ent.frame + 8 * ent.index;
      }
      return 0;
    }

    /** `page_fault_handler` with CR2 = `vaddr`. */
    method PageFault(vaddr: nat)
      requires Valid() && Managed(vaddr / 4096)
      modifies `mem, `freeSegments, `freePageHead, `space
      ensures Valid() && space == Fault(old(space), vaddr / 4096)
      ensures Kept(old(mem), old(space), mem, space)
      ensures space == old(space) ==> mem == old(mem)
      ensures space != old(space) ==>
                var c := Node(4, vaddr / 4096);
                && Live(old(space), c) && old(space).free != []
                && mem == old(mem)[SlotOf(old(space), c) := EntryFor(old(space).free[0])]
    {
      hide WellFormed, Encodes, Queue, Ancestor, OffsetForDepth, Managed, Kept;
      ghost var v := vaddr / 4096;
      ghost var s := space;
      KeptRefl(mem, s, s);
      var depth, ent := PtWalk(vaddr);
      if depth == 4 {
        return;
      }
      if depth != 3 || !Read(mem, ent).demand {
        return;
      }
      OnPage(v);
      var frame := AllocFrame();
      if frame == NULL {
        return;
      }
      MapPageRepresents(mem, old(freeSegments), old(freePageHead), freePageTail, pageTable, identity,
                        s, v, freeSegments, freePageHead, freePageTail);
      MapPageWellFormed(s, v);
      FreeOwner(s, frame);
      EntryKept(mem, s, MapPage(s, v), v, EntryFor(frame));
      mem := mem[ent := EntryFor(frame)];
      space := MapPage(s, v);
    }

    /** One turn of the loop of `PT_demand_allocate`: a cleared frame becomes the missing table, entered at `ent`. */
    method GrowTable(ent: Slot, ghost v: Page, ghost depth: nat) returns (newPt: Frame)
      requires Valid() && Reached(space, v, depth, ent) && depth < 3
      modifies `mem, `freeSegments, `freePageHead, `space, `hung
      ensures hung <==> old(space.free) != [] && REACH <= old(space.free)[0]
      ensures hung ==> mem == old(mem) && space.owner == old(space).owner
      ensures (newPt == NULL) == (old(space.free) == [])
      ensures newPt == NULL ==> Valid() && space == old(space)
      ensures newPt != NULL && !hung ==> Valid() && newPt == old(space.free)[0] && space == AddTable(old(space), On(v, depth + 1))
      ensures !hung ==> Kept(old(mem), old(space), mem, space) && StillBacked(old(space), space)
      ensures newPt != NULL && !hung ==> TableInstalled(old(mem), mem, old(space), On(v, depth + 1), newPt)
      ensures newPt == NULL ==> mem == old(mem)
    {
      hide WellFormed, Encodes, Queue, Ancestor, Kept;
      ghost var n := On(v, depth + 1);
      KeptRefl(mem, space, space);
      newPt := AllocFrame();
      if newPt == NULL {
        return;
      }
      InitEmptyPageTable(newPt);
      if hung {
        return;
      }
      mem := mem[ent := EntryFor(newPt)];
      assert TableInstalled(old(mem), mem, old(space), n, newPt);
      AddTableRepresents(old(mem), old(freeSegments), old(freePageHead), freePageTail, pageTable, identity,
                         old(space), n, mem, freeSegments, freePageHead, freePageTail);
      AddTableKept(old(mem), mem, old(space), n);
      space := AddTable(old(space), n);
    }

    /**
      `PT_demand_allocate`: 0 when the page is reserved, -1 when it was mapped already or frames ran out. It gets no
      further exactly when a frame that is to become a table is out of the kernel's reach.
     */
    method DemandAllocate(vaddr: nat) returns (r: int)
      requires Valid() && Managed(vaddr / 4096)
      modifies `mem, `freeSegments, `freePageHead, `space, `hung
      ensures hung <==> !Reaches(old(space), DemandOp(vaddr / 4096))
      ensures Within(old(mem), old(space), mem, space)
      ensures !hung ==> Valid()
      ensures !hung ==> (space, r == 0) == Demand(old(space), vaddr / 4096) && (r == 0 || r == -1)
      ensures !hung ==> Kept(old(mem), old(space), mem, space) && StillBacked(old(space), space)
      ensures !hung ==> FreeWordsKept(old(mem), mem, space)
    {
      hide WellFormed, Encodes, Queue, Build, BuildReaches, Ancestor, OffsetForDepth, Managed, Kept, StillBacked, Within;
      hide FreeWordsKept, TableInstalled;
      ghost var v := vaddr / 4096;
      OnPage(v);
      KeptRefl(mem, space, space);
      KeptWithin(mem, space, mem, space);
      BackedRefl(space, space);
      FreeWordsRefl(mem, space);
      var depth, ent := PtWalk(vaddr);
      if depth == 4 {
        return -1;
      }
      BuildSkips(space, v, 1, depth + 1);
      while depth < 3
        invariant Valid() && Reached(space, v, depth, ent)
        invariant Build(old(space), v, 1) == Build(space, v, depth + 1)
        invariant BuildReaches(old(space), v, 1) == BuildReaches(space, v, depth + 1)
        invariant Kept(old(mem), old(space), mem, space) && StillBacked(old(space), space)
        invariant FreeWordsKept(old(mem), mem, space)
        decreases 3 - depth
      {
        BuildUnfold(space, v, depth, ent);
        KeptWithin(old(mem), old(space), mem, space);
        ghost var s, mem0 := space, mem;
        var newPt := GrowTable(ent, v, depth);
        if hung {
          WithinRefl(mem, s, space);
          WithinThen(old(mem), old(space), mem0, s, mem, space);
          return -1;
        }
        KeptOn(old(mem), old(space), mem0, s, mem, space);
        KeptWithin(old(mem), old(space), mem, space);
        if newPt == NULL {
          return -1;
        }
        InstalledKeepsFree(mem0, mem, s, On(v, depth + 1));
        FreeWordsThen(old(mem), mem0, s, mem, space);
        Descend(s, vaddr, depth, ent);
        depth := depth + 1;
        ent := Slot(newPt, OffsetForDepth(vaddr, depth));
      }
      BuildUnfold(space, v, 3, ent);
      ReserveRepresents(mem, freeSegments, freePageHead, freePageTail, pageTable, identity, space, v);
      EntryKept(mem, space, Reserve(space, v), v, Read(mem, ent).(demand := true));
      BackedRefl(space, Reserve(space, v));
      ghost var mem0 := mem;
      EntryKeepsFree(mem, space, On(v, 4), Read(mem, ent).(demand := true));
      mem := mem[ent := Read(mem, ent).(demand := true)];
      FreeWordsThen(old(mem), mem0, space, mem, space);
      KeptOn(old(mem), old(space), mem0, space, mem, Reserve(space, v));
      FreeWordsSame(old(mem), mem, space, Reserve(space, v));
      space := Reserve(space, v);
      KeptWithin(old(mem), old(space), mem, space);
      return 0;
    }

    /** `PT_free`: the frame to give back, NULL when the address is unaligned or the page not mapped. */
    method PtFree(vaddr: nat) returns (f: Frame)
      requires Valid() && Managed(vaddr / 4096)
      modifies `mem
      ensures f != NULL <==> vaddr % 4096 == 0 && IsMapped(space, vaddr / 4096)
      ensures f == NULL ==> mem == old(mem)
      ensures f != NULL ==>
                var v := vaddr / 4096;
                && f == space.pages[v].frame
                && Live(space, Node(4, v))
                && mem == old(mem)[SlotOf(space, Node(4, v)) :=
                            Read(old(mem), SlotOf(space, Node(4, v))).(present := false, demand := false)]
    {
      hide Encodes, WellFormed, Queue, Managed, Ancestor;
      if vaddr % 4096 != 0 {
        return NULL;
      }
      ghost var v := vaddr / 4096;
      ManagedTop(v);
      TableOwner(space, ROOT);
      OnPage(v);
      var table, curr := pageTable, Slot(NULL, 0);
      var i := 0;
      while i < 4
        invariant i <= 4
        invariant i < 4 ==> On(v, i) in space.tables && table == space.tables[On(v, i)]
        invariant i == 4 ==> IsMapped(space, v) && table == space.pages[v].frame
        invariant i == 4 ==> Live(space, Node(4, v)) && curr == SlotOf(space, Node(4, v))
        invariant mem == old(mem)
      {
        WalkStep(mem, space, vaddr, i);
        curr := Slot(table, OffsetForDepth(vaddr, i));
        if !Read(mem, curr).present {
          if i < 3 {
            MissingTable(space, v, i + 1);
          }
          return NULL;
        }
        table := Read(mem, curr).address;
        i := i + 1;
      }
      PageOwner(space, v);
      mem := mem[curr := Read(mem, curr).(present := false)];
      mem := mem[curr := Read(mem, curr).(demand := false)];
      return table;
    }

    /** `MMU_free_page`: it gets no further exactly when the page's frame is out of the kernel's reach. */
    method FreePage(vaddr: nat)
      requires Valid() && Managed(vaddr / 4096)
      modifies `mem, `freePageHead, `freePageTail, `space, `hung
      ensures hung <==> vaddr % 4096 == 0 && !Reaches(old(space), ReleaseOp(vaddr / 4096))
      ensures Within(old(mem), old(space), mem, space)
      ensures !hung ==> Valid()
      ensures !hung ==> space == if vaddr % 4096 == 0 then Release(old(space), vaddr / 4096) else old(space)
      ensures !hung ==> Kept(old(mem), old(space), mem, space)
    {
      hide WellFormed, Encodes, Queue, Managed, Relink, TailLinked, Kept, Within;
      KeptRefl(mem, space, space);
      KeptWithin(mem, space, mem, space);
      ghost var v, s := vaddr / 4096, space;
      var f := PtFree(vaddr);
      if f != NULL {
        ghost var w := Read(old(mem), SlotOf(s, Node(4, v))).(present := false, demand := false);
        DetachKeepsQueue(old(mem), freeSegments, freePageHead, freePageTail, pageTable, identity, s, v, w);
        if f < REACH {
          UnmapKept(old(mem), freeSegments, freePageHead, freePageTail, pageTable, identity, s, v, w);
          UnmapRepresents(old(mem), freeSegments, freePageHead, freePageTail, pageTable, identity, s, v, w);
        } else {
          DetachConfined(old(mem), freeSegments, freePageHead, freePageTail, pageTable, identity, s, v, w);
        }
        FreeFrame(f);
        if hung {
          return;
        }
        space := UnmapPage(s, v);
        KeptWithin(old(mem), old(space), mem, space);
      }
    }

    /**
      `MMU_free_pages`: each page of the range is released if the address is aligned; else nothing happens. It gets no
      further exactly when the frame of a page of the range is out of the kernel's reach.
     */
    method FreePages(vaddr: nat, n: nat)
      requires Valid()
      requires vaddr % 4096 == 0 ==> forall v :: vaddr / 4096 <= v < vaddr / 4096 + n ==> Managed(v)
      modifies `mem, `freePageHead, `freePageTail, `space, `hung
      ensures hung <==> vaddr % 4096 == 0 && !RangeReaches(old(space), vaddr / 4096, n)
      ensures Within(old(mem), old(space), mem, space)
      ensures !hung ==> Valid()
      ensures !hung ==> space == if vaddr % 4096 == 0 then ReleaseRange(old(space), vaddr / 4096, n) else old(space)
      ensures !hung ==> Kept(old(mem), old(space), mem, space)
    {
      hide WellFormed, Encodes, Queue, Managed, Relink, Release, Kept, Within, RangeReaches;
      KeptRefl(mem, space, space);
      KeptWithin(mem, space, mem, space);
      RangeReachesNone(space, vaddr / 4096);
      for i := 0 to n
        invariant Valid() && Kept(old(mem), old(space), mem, space) && Within(old(mem), old(space), mem, space)
        invariant vaddr % 4096 == 0 ==> RangeReaches(old(space), vaddr / 4096, i)
        invariant space == if vaddr % 4096 == 0 then ReleaseRange(old(space), vaddr / 4096, i) else old(space)
      {
        assert (vaddr + 4096 * i) / 4096 == vaddr / 4096 + i && (vaddr + 4096 * i) % 4096 == vaddr % 4096;
        ghost var s, mem0 := space, mem;
        if (vaddr + 4096 * i) % 4096 == 0 {        // else PT_free returns NULL at once
          RangeReachesNext(old(space), vaddr / 4096, i, n);
          FreePage(vaddr + 4096 * i);
          KeptWithin(old(mem), old(space), mem0, s);
          WithinThen(old(mem), old(space), mem0, s, mem, space);
          if hung {
            return;
          }
          ReleaseHolds(old(space), s, vaddr / 4096 + i);
          KeptThen(old(mem), old(space), mem0, s, mem, space);
        }
      }
    }

    /** `MMU_alloc_page`: on exhaustion of heap addresses NULL, with interrupts left disabled one level deeper. */
    method AllocPage() returns (r: nat)
      requires HeapValid()
      modifies `mem, `freeSegments, `freePageHead, `space, `nextHeapVaddr, `irqDepth, `hung
      ensures (r, nextHeapVaddr) == Grant(old(nextHeapVaddr), 1)
      ensures hung <==> r != 0 && !Reaches(old(space), DemandOp(r / 4096))
      ensures Within(old(mem), old(space), mem, space)
      ensures !hung ==> HeapValid()
      ensures !hung ==> space == if r == 0 then old(space) else Demand(old(space), r / 4096).0
      ensures !hung ==> irqDepth == if r == 0 then old(irqDepth) + 1 else old(irqDepth)
      ensures !hung ==> Kept(old(mem), old(space), mem, space) && StillBacked(old(space), space)
    {
      hide WellFormed, Encodes, Queue, Demand, Kept, StillBacked, Within, Reaches;
      KeptRefl(mem, space, space);
      KeptWithin(mem, space, mem, space);
      BackedRefl(space, space);
      irqDepth := irqDepth + 1;
      if nextHeapVaddr == HEAP_END {
        return 0;
      }
      r := nextHeapVaddr;
      nextHeapVaddr := nextHeapVaddr + 4096;
      var _ := DemandAllocate(r);
      irqDepth := irqDepth - 1;
    }

    /** `MMU_alloc_pages`: consecutive pages, or NULL with interrupts left disabled two levels deeper. */
    method AllocPages(n: int) returns (r: nat)
      requires HeapValid()
      modifies `mem, `freeSegments, `freePageHead, `space, `nextHeapVaddr, `irqDepth, `hung
      ensures hung <==> !GrantReaches(old(space), old(nextHeapVaddr), n)
      ensures Within(old(mem), old(space), mem, space)
      ensures !hung ==> HeapValid()
      ensures !hung ==> (r, nextHeapVaddr) == Grant(old(nextHeapVaddr), n)
      ensures !hung ==>
                space == DemandRange(old(space), old(nextHeapVaddr) / 4096, (nextHeapVaddr - old(nextHeapVaddr)) / 4096)
      ensures !hung ==> irqDepth == if r == 0 && 0 < n then old(irqDepth) + 2 else old(irqDepth)
      ensures !hung ==> Kept(old(mem), old(space), mem, space) && StillBacked(old(space), space)
    {
      hide WellFormed, Encodes, Queue, Demand, Kept, StillBacked, Within, Reaches, DemandRange, DemandRangeReaches;
      KeptRefl(mem, space, space);
      KeptWithin(mem, space, mem, space);
      BackedRefl(space, space);
      ghost var v := nextHeapVaddr / 4096;
      RangeStart(space, v);
      if n <= 0 {
        return 0;
      }
      irqDepth := irqDepth + 1;
      var first := nextHeapVaddr;
      for i := 0 to n
        invariant HeapValid() && nextHeapVaddr == first + 4096 * i
        invariant space == DemandRange(old(space), v, i) && DemandRangeReaches(old(space), v, i)
        invariant irqDepth == old(irqDepth) + 1
        invariant Kept(old(mem), old(space), mem, space) && StillBacked(old(space), space)
        invariant Within(old(mem), old(space), mem, space)
      {
        ghost var s, mem0 := space, mem;
        RangeNext(old(space), v, i);
        assert nextHeapVaddr / 4096 == v + i;
        var page := AllocPage();
        KeptWithin(old(mem), old(space), mem0, s);
        WithinThen(old(mem), old(space), mem0, s, mem, space);
        if hung {
          GrantStops(old(space), first, n, i);
          return 0;
        }
        KeptOn(old(mem), old(space), mem0, s, mem, space);
        if page == 0 {
          GrantEnds(old(space), first, n, i);
          return 0;
        }
      }
      GrantEnds(old(space), first, n, n);
      irqDepth := irqDepth - 1;
      return first;
    }

    /** The stack addresses start eight bytes below a page boundary and stay there. */
    ghost predicate StacksValid()
      reads this
    {
      Valid() && nextStackVaddr % 4096 == 4088
    }

    /**
      `MMU_alloc_stack`: ten pages downwards from the one returned. The test for exhaustion compares with the start
      of the heap, which no stack address ever is, so no call is refused.
     */
    method AllocStack() returns (r: nat)
      requires StacksValid() && P4_SPAN + 10 <= nextStackVaddr / 4096 < 512 * P4_SPAN
      modifies `mem, `freeSegments, `freePageHead, `space, `nextStackVaddr, `irqDepth, `hung
      ensures hung <==> !DemandDownReaches(old(space), old(nextStackVaddr) / 4096, 10)
      ensures Within(old(mem), old(space), mem, space)
      ensures !hung ==> StacksValid() && r == old(nextStackVaddr) && nextStackVaddr == r - 40960
      ensures !hung ==> space == DemandDown(old(space), r / 4096, 10)
      ensures !hung ==> irqDepth == old(irqDepth)
      ensures !hung ==> Kept(old(mem), old(space), mem, space) && StillBacked(old(space), space)
    {
      hide WellFormed, Encodes, Queue, Demand, Kept, StillBacked, Within, Reaches;
      KeptRefl(mem, space, space);
      KeptWithin(mem, space, mem, space);
      BackedRefl(space, space);
      irqDepth, r := irqDepth + 1, 0;
      if nextStackVaddr == HEAP_START {
        return;
      }
      r := nextStackVaddr;
      for i := 0 to 10
        invariant Valid() && nextStackVaddr == r - 4096 * i && irqDepth == old(irqDepth) + 1
        invariant space == DemandDown(old(space), r / 4096, i) && DemandDownReaches(old(space), r / 4096, i)
        invariant Kept(old(mem), old(space), mem, space) && StillBacked(old(space), space)
        invariant Within(old(mem), old(space), mem, space)
      {
        assert nextStackVaddr / 4096 == r / 4096 - i;
        ghost var s, mem0 := space, mem;
        var _ := DemandAllocate(nextStackVaddr);
        KeptWithin(old(mem), old(space), mem0, s);
        WithinThen(old(mem), old(space), mem0, s, mem, space);
        if hung {
          DownStops(old(space), r / 4096, i, 10);
          return;
        }
        KeptOn(old(mem), old(space), mem0, s, mem, space);
        nextStackVaddr := nextStackVaddr - 4096;
      }
      irqDepth := irqDepth - 1;
    }

    /** `MMU_free_stack`: ten pages upwards, nothing unless the address is eight bytes below a page boundary. */
    method FreeStack(vaddr: nat)
      requires Valid() && 4088 <= vaddr
      requires vaddr % 4096 == 4088 ==> Managed(vaddr / 4096) && Managed(vaddr / 4096 + 9)
      modifies `mem, `freePageHead, `freePageTail, `space, `hung
      ensures hung <==> vaddr % 4096 == 4088 && !RangeReaches(old(space), vaddr / 4096, 10)
      ensures Within(old(mem), old(space), mem, space)
      ensures !hung ==> Valid()
      ensures !hung ==> space == if vaddr % 4096 == 4088 then ReleaseRange(old(space), vaddr / 4096, 10) else old(space)
      ensures !hung ==> Kept(old(mem), old(space), mem, space)
    {
      hide WellFormed, Encodes, Queue, Relink, Release, Kept, Within, RangeReaches;
      var base := vaddr - 4088;
      assert base % 4096 == 0 <==> vaddr % 4096 == 4088;
      assert base % 4096 == 0 ==> base / 4096 == vaddr / 4096;
      FreePages(base, 10);
    }

    /** A client's store through the page tables; it faults, changing nothing, on a page that is not mapped. */
    method StoreWord(vaddr: nat, w: Word)
      requires Valid() && Managed(vaddr / 4096) && InRange(w)
      modifies `mem
      ensures Valid()
      ensures var t := FlatLookup(space, vaddr / 4096);
              mem == if t.None? then old(mem) else old(mem)[Slot(t.value, vaddr % 4096 / 8) := w]
      ensures Within(old(mem), space, mem, space)
    {
      hide WellFormed, Encodes, Queue, Managed, OffsetForDepth;
      TranslateAgrees(mem, freeSegments, freePageHead, freePageTail, pageTable, identity, space, vaddr);
      var t := Translate(mem, pageTable, vaddr, 0);
      if t.Some? {
        StoreRepresents(mem, freeSegments, freePageHead, freePageTail, pageTable, identity, space,
                        vaddr / 4096, vaddr % 4096 / 8, w);
        StoreConfined(mem, space, vaddr / 4096, vaddr % 4096 / 8, w);
        mem := mem[Slot(t.value, vaddr % 4096 / 8) := w];
      }
    }

    /** One event: the step it makes, the frames it writes to, and the pages it does not touch. */
    method Perform(e: Event)
      requires Valid() && ManagedEvent(e)
      modifies `mem, `freeSegments, `freePageHead, `freePageTail, `space, `hung
      ensures hung <==> e.Paging? && !Reaches(old(space), e.op)
      ensures Within(old(mem), old(space), mem, space)
      ensures !hung ==> Valid() && space == if e.Paging? then Step(old(space), e.op) else old(space)
      ensures !hung ==> forall v :: IsMapped(old(space), v) && v != PageOf(e) ==> Spared(old(mem), old(space), mem, space, v)
    {
      hide WellFormed, Encodes, Queue, Managed, Relink, Demand, Fault, Release, Spared, Within, BuildReaches;
      assert e.Paging? ==> 4096 * e.op.v / 4096 == e.op.v && 4096 * e.op.v % 4096 == 0;
      match e
      case Paging(op) =>
        match op {
          case DemandOp(v) =>
            var _ := DemandAllocate(4096 * v);
          case FaultOp(v) =>
            PageFault(4096 * v);
            KeptWithin(old(mem), old(space), mem, space);
          case ReleaseOp(v) =>
            FreePage(4096 * v);
        }
        if !hung {
          StepSpares(old(mem), old(space), mem, op);
        }
      case Store(vaddr, w) =>
        StoreWord(vaddr, w);
        if IsMapped(space, vaddr / 4096) {
          StoreSpares(old(mem), space, vaddr / 4096, vaddr % 4096 / 8, w);
        } else {
          AllSpared(mem, space);
        }
    }

    /**
      Any run of paging operations and client stores: memory still represents the address space of the run, nothing
      is written outside the kernel's frames, and a mapped page that no event is about keeps its frame and every word.
      The run gets no further exactly when an operation touches a frame that is out of the kernel's reach.
     */
    method Execute(events: seq<Event>)
      requires Valid() && forall e :: e in events ==> ManagedEvent(e)
      modifies `mem, `freeSegments, `freePageHead, `freePageTail, `space, `hung
      ensures hung <==> !RunReaches(old(space), Operations(events))
      ensures Within(old(mem), old(space), mem, space)
      ensures !hung ==> Valid() && space == Run(old(space), Operations(events))
      ensures !hung ==> SparedAll(old(mem), old(space), mem, space, events)
    {
      hide Represents, ManagedEvent, Step, Run, Within, Spared, RunReaches, Reaches;
      RunNil(space);
      assert events[..0] == [] && events[0..] == events;
      AllSpared(mem, space);
      WithinRefl(mem, space, space);
      for i := 0 to |events|
        invariant Valid() && space == Run(old(space), Operations(events[..i]))
        invariant RunReaches(old(space), Operations(events)) == RunReaches(space, Operations(events[i..]))
        invariant Within(old(mem), old(space), mem, space)
        invariant SparedAll(old(mem), old(space), mem, space, events[..i])
      {
        var e := events[i];
        assert events[..i + 1] == events[..i] + [e];
        assert events[i..][0] == e && events[i..][1..] == events[i + 1..];
        RunEvent(old(space), events[..i], e);
        ReachesFirst(space, events[i..]);
        assert e in events && ManagedEvent(e);
        ghost var s, mem0 := space, mem;
        Perform(e);
        WithinThen(old(mem), old(space), mem0, s, mem, space);
        if hung {
          return;
        }
        SparedThen(old(mem), old(space), mem0, s, mem, space, events[..i], e);
      }
      assert events[..|events|] == events && events[|events|..] == [];
      ReachesNone(space);
    }
  }
}
