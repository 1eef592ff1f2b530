/**
  The kernel reaches page tables and the links of its free list by their physical addresses, which the hardware
  translates like any other address. The identity map covers the first gigabyte, so that is as far as the kernel
  gets: this module says so of every frame, and what it means for each operation.
 */
module KernelReach {
  import opened Basics
  import opened PhysicalMemory
  import opened FrameQueue
  import opened AddressSpace
  import opened PageTable
  import M = Mmu

  /** Every word of frame `f` is at its physical address. */
  ghost predicate Accessible(mem: Memory, root: Frame, f: Frame) {
    f < 512 * P4_SPAN && forall i :: 0 <= i < 512 ==> M.Translate(mem, root, 4096 * f + 8 * i, 0) == Some(f)
  }

  /** Tables in memory, with the identity map under P4 entry 0. */
  ghost predicate Tables(mem: Memory, root: Frame, p3: Frame, p2: Frame, s: Space) {
    && WellFormed(s) && Encodes(mem, s) && root == s.tables[ROOT]
    && Read(mem, Slot(root, 0)) == EntryFor(p3) && IdentityMap(mem, p3, p2)
  }

  lemma {:induction false} InFrame(f: Frame, i: nat)
    requires i < 512
    ensures (4096 * f + 8 * i) / 4096 == f && (f < REACH <==> 4096 * f + 8 * i < 0x4000_0000)
  {
  }

  /** What the address of a word of frame `f` leads to. */
  lemma {:induction false} AddressLeads(mem: Memory, root: Frame, p3: Frame, p2: Frame, s: Space, f: Frame, i: nat)
    requires Tables(mem, root, p3, p2, s) && f < 512 * P4_SPAN && i < 512
    ensures M.Translate(mem, root, 4096 * f + 8 * i, 0)
         == if f < REACH then Some(f) else if f < P4_SPAN then None else M.FlatLookup(s, f)
  {
    hide WellFormed, Encodes, IdentityMap, M.Translate, M.FlatLookup;
    InFrame(f, i);
    var vaddr := 4096 * f + 8 * i;
    if f < P4_SPAN {
      M.IdentityTranslates(mem, root, p3, p2, vaddr);
    } else {
      ManagedTop(f);
      TableOwner(s, ROOT);
      M.TranslateFrom(mem, s, vaddr, 0);
    }
  }

  /** A frame that backs no page is accessible to the kernel if and only if it lies in the first gigabyte. */
  lemma {:induction false} ReachExact(mem: Memory, root: Frame, p3: Frame, p2: Frame, s: Space, f: Frame)
    requires Tables(mem, root, p3, p2, s) && !(f in s.owner && s.owner[f].Backing?)
    ensures Accessible(mem, root, f) <==> f < REACH
  {
    hide WellFormed, Encodes, IdentityMap, M.Translate;
    if f < REACH {
      forall i | 0 <= i < 512
        ensures M.Translate(mem, root, 4096 * f + 8 * i, 0) == Some(f)
      {
        AddressLeads(mem, root, p3, p2, s, f, i);
      }
    } else if f < 512 * P4_SPAN {
      AddressLeads(mem, root, p3, p2, s, f, 0);
      if IsMapped(s, f) {
        PageOwner(s, f);
      }
      assert M.Translate(mem, root, 4096 * f + 8 * 0, 0) != Some(f);
    }
  }

  // ------------------------------------------------------------------
  // The frames each operation touches
  // ------------------------------------------------------------------

  /** The tables a walk to `v` reads. */
  ghost function Way(s: Space, v: Page, depth: nat): seq<Frame>
    requires depth <= 4
    decreases 4 - depth
  {
    if depth == 4 || On(v, depth) !in s.tables then [] else [s.tables[On(v, depth)]] + Way(s, v, depth + 1)
  }

  /** The frames that are cleared to become tables. */
  ghost function NewTables(s: Space, v: Page, depth: nat): seq<Frame>
    requires depth <= 4
    decreases 4 - depth
  {
    if depth == 4 then []
    else if On(v, depth) in s.tables then NewTables(s, v, depth + 1)
    else if s.free == [] then []
    else [s.free[0]] + NewTables(AddTable(s, On(v, depth)), v, depth + 1)
  }

  /** The frames the kernel touches for `op`: tables on the way, new tables, the head or the tail of the free list, the freed frame. */
  ghost function Touched(s: Space, op: Op, segs: seq<Segment>, head: Frame, tail: Frame): seq<Frame> {
    Way(s, op.v, 0) +
    match op
    case DemandOp(v) => if IsMapped(s, v) then [] else NewTables(s, v, 1)
    case FaultOp(_) => if segs == [] && head != NULL then [head] else []
    case ReleaseOp(v) => if IsMapped(s, v) then (if head == NULL then [] else [tail]) + [s.pages[v].frame] else []
  }

  /** The memory in which the frame is touched: `PT_free` has cleared the page's entry before its frame is linked. */
  ghost function When(mem: Memory, s: Space, op: Op): Memory {
    if op.ReleaseOp? && IsMapped(s, op.v) && Live(s, Node(4, op.v)) then
      var slot := SlotOf(s, Node(4, op.v));
      mem[slot := Read(mem, slot).(present := false, demand := false)]
    else mem
  }

  /** And the address space it stands for. */
  ghost function Then(s: Space, op: Op): Space {
    if op.ReleaseOp? && IsMapped(s, op.v) then UnmapPage(s, op.v) else s
  }

  lemma {:induction false} WhenTables(mem: Memory, segs: seq<Segment>, head: Frame, tail: Frame, root: Frame,
                                      p3: Frame, p2: Frame, s: Space, op: Op)
    requires Represents(mem, segs, head, tail, root, p3, s) && IdentityMap(mem, p3, p2) && Managed(op.v)
    requires p3 !in s.owner && p2 !in s.owner
    ensures Tables(When(mem, s, op), root, p3, p2, Then(s, op))
  {
    hide Tree, OwnsFree, OwnsTables, OwnsPages, Encodes, Queue, IdentityMap, Managed, Confined;
    var v := op.v;
    if op.ReleaseOp? && IsMapped(s, v) {
      M.TablesAbove(s, v, 3);
      PageIsLive(s, v);
      var slot, w := SlotOf(s, Node(4, v)), Read(mem, SlotOf(s, Node(4, v))).(present := false, demand := false);
      UnmapPageWellFormed(s, v);
      SetPageEntry(mem, s, UnmapPage(s, v), v, w);
      NotIdentitySlot(s, Node(4, v));
      EntryKept(mem, s, s, v, w);
      M.KeptWithin(mem, s, mem[slot := w], s);
      IdentityKept(mem, s, mem[slot := w], p3, p2);
    }
  }

  lemma {:induction false} PageIsLive(s: Space, v: Page)
    requires On(v, 3) in s.tables
    ensures Live(s, Node(4, v))
  {
    assert Parent(On(v, 4)) == On(v, 3) && On(v, 4) == Node(4, v);
  }

  lemma {:induction false} WayMember(s: Space, v: Page, depth: nat, f: Frame) returns (n: Node)
    requires depth <= 4 && f in Way(s, v, depth)
    ensures n in s.tables && s.tables[n] == f
    decreases 4 - depth
  {
    if f == s.tables[On(v, depth)] {
      n := On(v, depth);
    } else {
      n := WayMember(s, v, depth + 1, f);
    }
  }

  lemma {:induction false} NewTablesFree(s: Space, v: Page, depth: nat)
    requires depth <= 4
    ensures forall f :: f in NewTables(s, v, depth) ==> f in s.free
    decreases 4 - depth
  {
    if depth < 4 {
      if On(v, depth) in s.tables {
        NewTablesFree(s, v, depth + 1);
      } else if s.free != [] {
        NewTablesFree(AddTable(s, On(v, depth)), v, depth + 1);
      }
    }
  }

  lemma {:induction false} NewTablesReach(s: Space, v: Page, depth: nat)
    requires depth <= 4
    ensures InReach(NewTables(s, v, depth)) <==> BuildReaches(s, v, depth)
    decreases 4 - depth
  {
    hide InReach;
    if depth == 4 {
      NoneInReach();
    } else {
      if On(v, depth) in s.tables {
        NewTablesReach(s, v, depth + 1);
      } else if s.free != [] {
        var rest := NewTables(AddTable(s, On(v, depth)), v, depth + 1);
        NewTablesReach(AddTable(s, On(v, depth)), v, depth + 1);
        FirstOrRest(s.free[0], rest);
        assert NewTables(s, v, depth) == [s.free[0]] + rest;
      } else {
        NoneInReach();
      }
    }
  }

  ghost predicate InReach(frames: seq<Frame>) {
    forall f :: f in frames ==> f < REACH
  }

  lemma {:induction false} NoneInReach()
    ensures InReach([])
  {
  }

  lemma {:induction false} FirstOrRest(first: Frame, rest: seq<Frame>)
    ensures InReach([first] + rest) <==> first < REACH && InReach(rest)
  {
    assert first in [first] + rest && forall f :: f in rest ==> f in [first] + rest;
  }

  /** None of the frames touched backs a page at that moment. */
  lemma {:induction false} TouchedBacksNone(mem: Memory, segs: seq<Segment>, head: Frame, tail: Frame, root: Frame,
                                            identity: Frame, s: Space, op: Op, f: Frame)
    requires Represents(mem, segs, head, tail, root, identity, s) && f in Touched(s, op, segs, head, tail)
    ensures !(f in Then(s, op).owner && Then(s, op).owner[f].Backing?)
  {
    hide WellFormed, Encodes, Queue;
    if f in Way(s, op.v, 0) {
      var n := WayMember(s, op.v, 0, f);
      TableOwner(s, n);
    } else {
      if op.DemandOp? {
        NewTablesFree(s, op.v, 1);
        FreeOwner(s, f);
      } else if op.FaultOp? || f != s.pages[op.v].frame {
        TailQueued(mem, segs, head, tail, s.free);
        FreeOwner(s, f);
      }
    }
  }

  lemma {:induction false} InReachExact(mem: Memory, segs: seq<Segment>, head: Frame, tail: Frame, root: Frame,
                                        identity: Frame, s: Space, op: Op)
    requires Represents(mem, segs, head, tail, root, identity, s)
    ensures InReach(Touched(s, op, segs, head, tail)) <==> Reaches(s, op)
  {
    hide WellFormed, Encodes, Queue, BuildReaches, NewTables;
    var way := Way(s, op.v, 0);
    forall f | f in way
      ensures f < REACH
    {
      var n := WayMember(s, op.v, 0, f);
    }
    if head != NULL {
      TailQueued(mem, segs, head, tail, s.free);
    }
    match op
    case DemandOp(v) =>
      NewTablesReach(s, v, 1);
      assert forall f :: f in Touched(s, op, segs, head, tail) <==> f in way || (!IsMapped(s, v) && f in NewTables(s, v, 1));
    case FaultOp(_) =>
    case ReleaseOp(v) =>
      assert IsMapped(s, v) ==> s.pages[v].frame in Touched(s, op, segs, head, tail);
  }

  /**
    For every state and every operation: each frame the kernel touches is at its physical address if and only if
    `Reaches` holds, which a caller can tell from the frames alone.
   */
  lemma {:induction false} GoesThroughExact(mem: Memory, segs: seq<Segment>, head: Frame, tail: Frame, root: Frame,
                                            p3: Frame, p2: Frame, s: Space, op: Op)
    requires Represents(mem, segs, head, tail, root, p3, s) && IdentityMap(mem, p3, p2) && Managed(op.v)
    requires p3 !in s.owner && p2 !in s.owner
    ensures (forall f :: f in Touched(s, op, segs, head, tail) ==> Accessible(When(mem, s, op), root, f)) <==> Reaches(s, op)
  {
    hide Represents, IdentityMap, Managed, Touched, When, Then, Reaches, Accessible, Tables;
    WhenTables(mem, segs, head, tail, root, p3, p2, s, op);
    forall f | f in Touched(s, op, segs, head, tail)
      ensures Accessible(When(mem, s, op), root, f) <==> f < REACH
    {
      TouchedBacksNone(mem, segs, head, tail, root, p3, s, op, f);
      ReachExact(When(mem, s, op), root, p3, p2, Then(s, op), f);
    }
    InReachExact(mem, segs, head, tail, root, p3, s, op);
  }
}
