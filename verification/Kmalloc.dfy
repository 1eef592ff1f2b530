/**
  src/kmalloc.c on virtual memory: block headers and free lists live in the blocks themselves, in pages
  that the page tables of module Mmu map when they are first touched. Each method is proved to compute
  the operation of module KmallocHeap it stands for.
 */
module Kmalloc {
  import opened Basics
  import opened KmallocHeap
  import opened VirtualMemory
  import P = PhysicalMemory
  import F = FrameQueue
  import S = AddressSpace
  import T = PageTable
  import M = Mmu

  function Word(mem: Words, x: nat): nat {
    if x in mem then mem[x] else 0
  }

  /** The `pool` field of a header: NULL for a block of pages, else a pointer to the pool. */
  function PoolField(b: Block): nat {
    match b
    case Small(i) => i + 1
    case Large(_) => 0
  }

  /** The header of block `b` at `a` has been written. */
  ghost predicate Header(mem: Words, a: nat, b: Block) {
    a in mem && a + 8 in mem && mem[a] == PoolField(b) && (b.Large? ==> mem[a + 8] == b.pages)
  }

  /** Following the `next` fields from `head` visits `s` and ends in NULL. */
  ghost predicate Linked(mem: Words, head: nat, s: seq<nat>)
    decreases |s|
  {
    if s == [] then head == 0 else head == s[0] && Linked(mem, Word(mem, head + 8), s[1..])
  }

  ghost predicate Headers(mem: Words, h: Heap) {
    forall a :: a in h.blocks ==> Header(mem, a, h.blocks[a])
  }

  ghost predicate Stacks(mem: Words, heads: seq<nat>, h: Heap) {
    |heads| == 6 && |h.free| == 6 && forall i :: 0 <= i < 6 ==> Linked(mem, heads[i], h.free[i])
  }

  ghost predicate Represents(mem: Words, heads: seq<nat>, h: Heap) {
    WellFormed(h) && Headers(mem, h) && Stacks(mem, heads, h)
  }

  /** Header words are unchanged wherever blocks are. */
  ghost predicate SameHeaders(mem: Words, mem': Words, h: Heap) {
    forall a :: a in h.blocks ==>
      && (a in mem ==> a in mem' && mem'[a] == mem[a])
      && (a + 8 in mem ==> a + 8 in mem' && mem'[a + 8] == mem[a + 8])
  }

  lemma {:induction false} LinkedFrame(mem: Words, mem': Words, head: nat, s: seq<nat>)
    requires Linked(mem, head, s)
    requires forall a :: a in s ==> Word(mem', a + 8) == Word(mem, a + 8)
    ensures Linked(mem', head, s)
    decreases |s|
  {
    if s != [] {
      assert s[0] in s && forall a :: a in s[1..] ==> a in s;
      LinkedFrame(mem, mem', Word(mem, head + 8), s[1..]);
    }
  }

  lemma {:induction false} SameHeadersKeep(mem: Words, mem': Words, heads: seq<nat>, h: Heap)
    requires Sorted(h) && Headers(mem, h) && Stacks(mem, heads, h) && SameHeaders(mem, mem', h)
    ensures Headers(mem', h) && Stacks(mem', heads, h)
  {
    forall a | a in h.blocks
      ensures Header(mem', a, h.blocks[a])
    {
      assert Header(mem, a, h.blocks[a]);
    }
    forall i | 0 <= i < 6
      ensures Linked(mem', heads[i], h.free[i])
    {
      assert Stack(h, i);
      assert forall a :: a in h.free[i] ==> Header(mem, a, h.blocks[a]);
      LinkedFrame(mem, mem', heads[i], h.free[i]);
    }
  }

  /** A client that stays inside the payload of a block it holds touches no header. */
  lemma {:induction false} StoreRepresents(mem: Words, heads: seq<nat>, h: Heap, a: nat, x: nat, w: nat)
    requires Represents(mem, heads, h) && a in h.blocks
    requires a + 16 <= x && x + 8 <= a + Extent(h.blocks[a])
    ensures Represents(mem[x := w], heads, h)
  {
    hide Sorted, Sized, Headers, Stacks;
    forall b | b in h.blocks
      ensures b != x && b + 8 != x
    {
      assert b < a ==> b + Extent(h.blocks[b]) <= a;
      assert a < b ==> a + Extent(h.blocks[a]) <= b;
    }
    SameHeadersKeep(mem, mem[x := w], heads, h);
  }

  /** Writing the `next` field of one block leaves every other header alone. */
  lemma {:induction false} NextFieldIsOwn(h: Heap, top: nat, a: nat, b: nat)
    requires Disjoint(h, top) && a in h.blocks && b in h.blocks
    ensures b != a + 8 && (b != a ==> b + 8 != a + 8)
  {
    assert b < a ==> b + Extent(h.blocks[b]) <= a;
    assert a < b ==> a + Extent(h.blocks[a]) <= b;
  }

  lemma {:induction false} SetNextHeaders(mem: Words, h: Heap, top: nat, a: nat, v: nat)
    requires Headers(mem, h) && Disjoint(h, top) && a in h.blocks && h.blocks[a].Small?
    ensures Headers(mem[a + 8 := v], h)
  {
    forall b | b in h.blocks
      ensures Header(mem[a + 8 := v], b, h.blocks[b])
    {
      assert Header(mem, b, h.blocks[b]);
      NextFieldIsOwn(h, top, a, b);
    }
  }

  /** The free list of a pool is unaffected by the `next` field of a block not in it. */
  lemma {:induction false} SetNextOther(mem: Words, head: nat, s: seq<nat>, a: nat, v: nat)
    requires Linked(mem, head, s) && a !in s
    ensures Linked(mem[a + 8 := v], head, s)
  {
    LinkedFrame(mem, mem[a + 8 := v], head, s);
  }

  lemma {:induction false} FirstIsElsewhere(s: seq<nat>)
    requires s != [] && NoDup(s)
    ensures s[0] !in s[1..] && NoDup(s[1..])
  {
  }

  /** Popping the free list. */
  lemma {:induction false} PopLinked(mem: Words, head: nat, s: seq<nat>)
    requires Linked(mem, head, s) && s != [] && NoDup(s)
    ensures head == s[0] && Linked(mem[s[0] + 8 := 0], Word(mem, s[0] + 8), s[1..])
  {
    hide NoDup;
    FirstIsElsewhere(s);
    SetNextOther(mem, Word(mem, s[0] + 8), s[1..], s[0], 0);
  }

  /** Pushing onto the free list. */
  lemma {:induction false} PushLinked(mem: Words, head: nat, s: seq<nat>, a: nat)
    requires Linked(mem, head, s) && a !in s
    ensures Linked(mem[a + 8 := head], a, [a] + s)
  {
    SetNextOther(mem, head, s, a, head);
    assert ([a] + s)[1..] == s;
  }

  lemma {:induction false} TakeRepresents(mem: Words, heads: seq<nat>, h: Heap, i: nat, size: Size)
    requires Represents(mem, heads, h) && i < 6 && |h.free| == 6 && h.free[i] != [] && PoolFor(size) == i && 0 < size
    ensures |heads| == 6 && heads[i] == h.free[i][0]
    ensures Represents(mem[heads[i] + 8 := 0], heads[i := Word(mem, heads[i] + 8)], TakeSmall(h, i, size).0)
  {
    hide Sized, Sorted, Disjoint, Headers, PoolFor, NoDup;
    var h', a := TakeSmall(h, i, size).0, h.free[i][0];
    var mem', heads' := mem[a + 8 := 0], heads[i := Word(mem, a + 8)];
    StackBelow(h, i, h.next);
    FirstIsSmall(h, i);
    assert a in h.free[i];
    TakeSmallWellFormed(h, i, size);
    SetNextHeaders(mem, h, h.next, a, 0);
    HeadersOfSameBlocks(mem', h, h');
    PopLinked(mem, heads[i], h.free[i]);
    forall j | 0 <= j < 6
      ensures Linked(mem', heads'[j], h'.free[j])
    {
      if j != i {
        StacksApart(h, i, j);
        SetNextOther(mem, heads[j], h.free[j], a, 0);
      }
    }
  }

  lemma {:induction false} StacksOfSameFree(mem: Words, heads: seq<nat>, h: Heap, h': Heap)
    requires Stacks(mem, heads, h) && h'.free == h.free
    ensures Stacks(mem, heads, h')
  {
  }

  lemma {:induction false} HeadersOfSameBlocks(mem: Words, h: Heap, h': Heap)
    requires Headers(mem, h) && h'.blocks.Items <= h.blocks.Items
    ensures Headers(mem, h')
  {
    assert forall a :: a in h'.blocks ==> (a, h'.blocks[a]) in h'.blocks.Items;
    assert forall a :: a in h'.blocks ==> a in h.blocks && h'.blocks[a] == h.blocks[a];
  }

  lemma {:induction false} FreeSmallRepresents(mem: Words, heads: seq<nat>, h: Heap, a: nat)
    requires Represents(mem, heads, h) && a in h.live && a in h.blocks && h.blocks[a].Small?
    ensures var i := h.blocks[a].pool;
            && i < 6 && |heads| == 6 && |h.free| == 6
            && Represents(mem[a + 8 := heads[i]], heads[i := a], Free(h, a))
  {
    hide Sized, Headers;
    var i := h.blocks[a].pool;
    LiveBlock(h, a);
    var h', mem', heads' := Free(h, a), mem[a + 8 := heads[i]], heads[i := a];
    FreeWellFormed(h, a);
    SetNextHeaders(mem, h, h.next, a, heads[i]);
    HeadersOfSameBlocks(mem', h, h');
    PushLinked(mem, heads[i], h.free[i], a);
    forall j | 0 <= j < 6
      ensures Linked(mem', heads'[j], h'.free[j])
    {
      if j != i {
        assert Stack(h, j);
        SetNextOther(mem, heads[j], h.free[j], a, heads[i]);
      }
    }
  }

  /** With the pages of a large block go its words, and no word of another header. */
  lemma {:induction false} FreeLargeRepresents(mem: Words, heads: seq<nat>, h: Heap, a: nat)
    requires Represents(mem, heads, h) && a in h.live && a in h.blocks && h.blocks[a].Large?
    ensures Represents(Outside(mem, a, h.blocks[a].pages), heads, Free(h, a))
  {
    hide Sorted, Sized, Headers, Stacks;
    var h', mem' := Free(h, a), Outside(mem, a, h.blocks[a].pages);
    FreeWellFormed(h, a);
    HeadersOfSameBlocks(mem, h, h');
    StacksOfSameFree(mem, heads, h, h');
    forall b | b in h'.blocks
      ensures !(a <= b < a + 4096 * h.blocks[a].pages) && !(a <= b + 8 < a + 4096 * h.blocks[a].pages)
    {
      assert b < a ==> b + Extent(h.blocks[b]) <= a;
      assert a < b ==> a + Extent(h.blocks[a]) <= b;
    }
    SameHeadersKeep(mem, mem', heads, h');
  }

  /** A header written at or above every block touches no other header. */
  lemma {:induction false} AboveIsFresh(mem: Words, heads: seq<nat>, h: Heap, a: nat, v: nat, w: nat)
    requires Disjoint(h, a) && Sorted(h) && Headers(mem, h) && Stacks(mem, heads, h)
    ensures Headers(mem[a := v][a + 8 := w], h) && Stacks(mem[a := v][a + 8 := w], heads, h)
  {
    hide Sorted, Headers, Stacks;
    assert forall b :: b in h.blocks ==> b + Extent(h.blocks[b]) <= a;
    SameHeadersKeep(mem, mem[a := v][a + 8 := w], heads, h);
  }

  lemma {:induction false} LargeRepresents(mem: Words, heads: seq<nat>, h: Heap, size: Size)
    requires Represents(mem, heads, h) && PoolFor(size) == 6 && 0 < size && M.Grant(h.next, PagesFor(size)).0 != 0
    ensures Represents(mem[h.next := 0][h.next + 8 := PagesFor(size)], heads, TakeLarge(h, size).0)
  {
    hide Sized, Sorted, Disjoint, Stacks, PoolFor, PagesFor;
    var h', mem' := TakeLarge(h, size).0, mem[h.next := 0][h.next + 8 := PagesFor(size)];
    TakeLargeWellFormed(h, size);
    AboveIsFresh(mem, heads, h, h.next, 0, PagesFor(size));
    StacksOfSameFree(mem', heads, h, h');
    forall b | b in h'.blocks
      ensures Header(mem', b, h'.blocks[b])
    {
      if b != h.next {
        assert Header(mem', b, h.blocks[b]);
      }
    }
  }

  /** Memory and list head after the carving loop linked one more block `a` behind the last one. */
  function CarveWords(mem: Words, i: nat, s: seq<nat>, a: nat): Words {
    (if s == [] then mem else mem[s[|s| - 1] + 8 := a])[a := i + 1][a + 8 := 0]
  }

  lemma {:induction false} LastLinked(mem: Words, a: nat)
    requires Word(mem, a + 8) == 0
    ensures Linked(mem, a, [a]) && Linked(mem, a, [] + [a])
  {
    assert [a][1..] == [] && [] + [a] == [a];
  }

  /** Setting the `next` field of the last block appends to the free list. */
  lemma {:induction false} ExtendLinked(mem: Words, mem': Words, head: nat, s: seq<nat>, a: nat)
    requires Linked(mem, head, s) && s != [] && NoDup(s)
    requires Word(mem', s[|s| - 1] + 8) == a && Word(mem', a + 8) == 0
    requires forall b :: b in s && b != s[|s| - 1] ==> Word(mem', b + 8) == Word(mem, b + 8)
    ensures Linked(mem', head, s + [a])
    decreases |s|
  {
    hide NoDup, Word;
    var rest := s[1..];
    assert (s + [a])[1..] == rest + [a] && s[0] in s;
    if rest == [] {
      LastLinked(mem', a);
    } else {
      FirstIsElsewhere(s);
      assert rest[|rest| - 1] == s[|s| - 1] && s[|s| - 1] in rest && forall b :: b in rest ==> b in s;
      ExtendLinked(mem, mem', Word(mem, head + 8), rest, a);
    }
  }

  lemma {:induction false} AppendLinked(mem: Words, i: nat, head: nat, s: seq<nat>, a: nat)
    requires Linked(mem, head, s) && NoDup(s) && (forall b :: b in s ==> b + 32 <= a)
    ensures Linked(CarveWords(mem, i, s, a), if s == [] then a else head, s + [a])
  {
    hide NoDup, Linked;
    var mem' := CarveWords(mem, i, s, a);
    if s == [] {
      LastLinked(mem', a);
    } else {
      assert s[|s| - 1] in s;
      ExtendLinked(mem, mem', head, s, a);
    }
  }

  /** The stack of a pool when all blocks lie below `a`. */
  lemma {:induction false} StackBelow(h: Heap, i: nat, a: nat)
    requires Disjoint(h, a) && Sorted(h) && i < 6
    ensures |h.free| == 6 && NoDup(h.free[i])
    ensures forall b :: b in h.free[i] ==> b in h.blocks && b + 32 <= a
  {
    assert Stack(h, i);
  }

  lemma {:induction false} StacksApart(h: Heap, i: nat, j: nat)
    requires Sorted(h) && i < 6 && j < 6 && i != j
    ensures |h.free| == 6 && forall b :: b in h.free[i] ==> b !in h.free[j]
  {
    assert Stack(h, i) && Stack(h, j);
  }

  lemma {:induction false} CarveHeaders(mem: Words, h: Heap, i: nat, a: nat)
    requires Headers(mem, h) && Disjoint(h, a) && Sorted(h) && i < 6 && |h.free| == 6
    ensures Headers(CarveWords(mem, i, h.free[i], a), AddFree(h, i, a))
  {
    hide Sorted;
    var mem', h', s := CarveWords(mem, i, h.free[i], a), AddFree(h, i, a), h.free[i];
    StackBelow(h, i, a);
    assert s != [] ==> s[|s| - 1] in s;
    forall b | b in h'.blocks
      ensures Header(mem', b, h'.blocks[b])
    {
      if b != a {
        assert Header(mem, b, h.blocks[b]) && b + 32 <= a;
        if s != [] {
          NextFieldIsOwn(h, a, s[|s| - 1], b);
          LastIsSmall(h, i);
        }
      }
    }
  }

  lemma {:induction false} FirstIsSmall(h: Heap, i: nat)
    requires Sorted(h) && i < 6 && |h.free| == 6 && h.free[i] != []
    ensures h.free[i][0] in h.blocks && h.blocks[h.free[i][0]].Small?
  {
    assert Stack(h, i) && h.free[i][0] in h.free[i];
  }

  lemma {:induction false} LastIsSmall(h: Heap, i: nat)
    requires Sorted(h) && i < 6 && |h.free| == 6 && h.free[i] != []
    ensures var last := h.free[i][|h.free[i]| - 1]; last in h.blocks && h.blocks[last].Small?
  {
    assert Stack(h, i);
    assert h.free[i][|h.free[i]| - 1] in h.free[i];
  }

  lemma {:induction false} CarveStacks(mem: Words, heads: seq<nat>, h: Heap, i: nat, a: nat)
    requires Stacks(mem, heads, h) && Disjoint(h, a) && Sorted(h) && i < 6
    ensures Stacks(CarveWords(mem, i, h.free[i], a), if h.free[i] == [] then heads[i := a] else heads, AddFree(h, i, a))
  {
    hide Sorted, Disjoint, NoDup;
    var mem', s := CarveWords(mem, i, h.free[i], a), h.free[i];
    StackBelow(h, i, a);
    AppendLinked(mem, i, heads[i], s, a);
    assert s != [] ==> s[|s| - 1] in s;
    forall j | 0 <= j < 6 && j != i
      ensures Linked(mem', heads[j], h.free[j])
    {
      StackBelow(h, j, a);
      StacksApart(h, i, j);
      LinkedFrame(mem, mem', heads[j], h.free[j]);
    }
  }

  /** One turn of the carving loop. */
  lemma {:induction false} CarveStep(mem: Words, heads: seq<nat>, h: Heap, i: nat, a: nat)
    requires Headers(mem, h) && Stacks(mem, heads, h) && Disjoint(h, a) && Sorted(h) && Sized(h)
    requires i < 6 && |h.free| == 6 && |heads| == 6 && M.HEAP_START <= a && a % 32 == 0
    ensures var h' := AddFree(h, i, a);
            && Headers(CarveWords(mem, i, h.free[i], a), h')
            && Stacks(CarveWords(mem, i, h.free[i], a), if h.free[i] == [] then heads[i := a] else heads, h')
            && Disjoint(h', a + BlockSize(i)) && Sorted(h') && Sized(h')
  {
    hide Headers, Stacks, Disjoint, Sorted, Sized;
    CarveHeaders(mem, h, i, a);
    CarveStacks(mem, heads, h, i, a);
    AddFreeDisjoint(h, i, a);
    AddFreeSorted(h, i, a);
    AddFreeSized(h, i, a);
  }

  lemma {:induction false} HeadsTell(mem: Words, heads: seq<nat>, h: Heap, i: nat, top: nat)
    requires Stacks(mem, heads, h) && Disjoint(h, top) && Sorted(h) && i < 6
    ensures heads[i] == 0 <==> h.free[i] == []
  {
    assert Linked(mem, heads[i], h.free[i]) && Stack(h, i);
    if h.free[i] != [] {
      assert h.free[i][0] in h.free[i];
    }
  }

  /** The list head says whether the pool has a free block. */
  lemma {:induction false} HeadTells(mem: Words, heads: seq<nat>, h: Heap, i: nat)
    requires Represents(mem, heads, h) && i < 6
    ensures |heads| == 6 && |h.free| == 6 && (heads[i] == 0 <==> h.free[i] == [])
    ensures h.free[i] != [] ==> heads[i] == h.free[i][0]
  {
    assert Linked(mem, heads[i], h.free[i]) && Stack(h, i);
    if h.free[i] != [] {
      assert h.free[i][0] in h.free[i];
    }
  }

  lemma {:induction false} HeaderTells(mem: Words, heads: seq<nat>, h: Heap, a: nat)
    requires Represents(mem, heads, h) && a in h.live
    ensures a in h.blocks && Header(mem, a, h.blocks[a]) && |h.free| == 6 && |heads| == 6
    ensures h.blocks[a].Small? ==> h.blocks[a].pool < 6
  {
  }

  // ------------------------------------------------------------------
  // What clients have stored
  // ------------------------------------------------------------------

  /** Words in the payload of live blocks are the same in both. */
  ghost predicate SamePayload(h: Heap, mem: Words, mem': Words) {
    forall a, x :: a in h.live && InPayload(h, a, x) && x in mem ==> x in mem' && mem'[x] == mem[x]
  }

  /** No word of a payload is part of a header. */
  lemma {:induction false} PayloadNotHeader(h: Heap, top: nat, a: nat, b: nat, x: nat)
    requires Disjoint(h, top) && a in h.blocks && InPayload(h, b, x)
    ensures x != a && x != a + 8 && x < top
  {
    assert b < a ==> b + Extent(h.blocks[b]) <= a;
    assert a < b ==> a + Extent(h.blocks[a]) <= b;
  }

  lemma {:induction false} NextKeepsPayload(h: Heap, top: nat, mem: Words, a: nat, v: nat)
    requires Disjoint(h, top) && a in h.blocks
    ensures SamePayload(h, mem, mem[a + 8 := v])
  {
    hide Disjoint, InPayload;
    forall b, x | b in h.live && InPayload(h, b, x) && x in mem
      ensures x in mem[a + 8 := v] && mem[a + 8 := v][x] == mem[x]
    {
      PayloadNotHeader(h, top, a, b, x);
    }
  }

  lemma {:induction false} AboveKeepsPayload(h: Heap, top: nat, mem: Words, a: nat, v: nat, w: nat)
    requires Disjoint(h, top) && top <= a
    ensures SamePayload(h, mem, mem[a := v][a + 8 := w])
  {
    forall b, x: nat | b in h.live && InPayload(h, b, x) && x in mem
      ensures x < a
    {
      PayloadNotHeader(h, top, b, b, x);
    }
  }

  lemma {:induction false} CarveKeepsPayload(h: Heap, mem: Words, i: nat, a: nat)
    requires Disjoint(h, a) && Sorted(h) && i < 6 && |h.free| == 6
    ensures SamePayload(h, mem, CarveWords(mem, i, h.free[i], a))
  {
    hide Disjoint, Sorted, InPayload;
    var s := h.free[i];
    if s != [] {
      LastIsSmall(h, i);
      NextKeepsPayload(h, a, mem, s[|s| - 1], a);
      AboveKeepsPayload(h, a, mem[s[|s| - 1] + 8 := a], a, i + 1, 0);
    } else {
      AboveKeepsPayload(h, a, mem, a, i + 1, 0);
    }
  }

  /** The live blocks of the first heap are live and in the same places in the second. */
  ghost predicate SameLive(h: Heap, h1: Heap) {
    forall a :: a in h.live && a in h.blocks ==> a in h1.live && a in h1.blocks && h1.blocks[a] == h.blocks[a]
  }

  lemma {:induction false} SameLiveRefl(h: Heap, h1: Heap)
    requires h1.live == h.live && h1.blocks == h.blocks
    ensures SameLive(h, h1)
  {
  }

  lemma {:induction false} SameLiveThen(h: Heap, h1: Heap, h2: Heap)
    requires SameLive(h, h1) && SameLive(h1, h2)
    ensures SameLive(h, h2)
  {
  }

  lemma {:induction false} SamePayloadThen(h: Heap, h1: Heap, mem: Words, mem1: Words, mem2: Words)
    requires SamePayload(h, mem, mem1) && SamePayload(h1, mem1, mem2)
    requires SameLive(h, h1)
    ensures SamePayload(h, mem, mem2)
  {
    forall a, x | a in h.live && InPayload(h, a, x) && x in mem
      ensures x in mem2 && mem2[x] == mem[x]
    {
      assert InPayload(h1, a, x);
    }
  }

  /** A word that was stored in the payload of a live block is still there. */
  ghost predicate Retained(h: Heap, mem: Words, h': Heap, mem': Words, a: nat, x: nat) {
    a in h.live && InPayload(h, a, x) && x in mem ==>
      a in h'.live && InPayload(h', a, x) && x in mem' && mem'[x] == mem[x]
  }

  /** No operation frees the block or stores at the address. */
  ghost predicate Spares(ops: seq<Op>, a: nat, x: nat) {
    forall op :: op in ops ==> op != FreeOp(a) && !(op.StoreOp? && op.x == x)
  }

  lemma {:induction false} EmptyRepresents()
    ensures Represents(map[], [0, 0, 0, 0, 0, 0], EMPTY)
  {
    assert forall i :: 0 <= i < 6 ==> EMPTY.free[i] == [];
    assert M.HEAP_START == 4096 * 0xF000_0000;
  }

  /** Heap addresses are translated through the tables. */
  lemma {:induction false} HeapIsManaged(x: nat)
    requires M.HEAP_START <= x < M.HEAP_END
    ensures S.Managed(x / 4096) && x < 0x1_0000_0000_0000_0000
  {
    assert 0xF00_0000_0000 / 4096 <= x / 4096 < 0x1000_0000_0000 / 4096 + 1;
  }

  /** The paging an operation asks for touches no frame out of the kernel's reach. */
  ghost predicate OpReaches(h: Heap, s: S.Space, op: Op) {
    match op
    case MallocOp(size) => MallocReaches(h, s, size)
    case FreeOp(a) => a in h.blocks && h.blocks[a].Large? ==> M.RangeReaches(s, a / 4096, h.blocks[a].pages)
    case StoreOp(_, _, _) => true
  }

  ghost predicate MallocReaches(h: Heap, s: S.Space, size: Size) {
    var i := PoolFor(size);
    if size == 0 || (i < |h.free| && h.free[i] != []) then true
    else M.GrantReaches(s, h.next, if i == 6 then PagesFor(size) else 4)
  }

  /** The page count `kmalloc` asks `MMU_alloc_pages` for, if it asks at all. */
  ghost predicate Asks(h: Heap, size: Size) {
    0 < size && !(PoolFor(size) < |h.free| && h.free[PoolFor(size)] != [])
  }

  function AskedPages(size: Size): int {
    if PoolFor(size) == 6 then PagesFor(size) else 4
  }

  /** The address space after the demand allocations of `MMU_alloc_pages`. */
  ghost function Demanded(s: S.Space, next: nat, n: int): S.Space {
    var next' := M.Grant(next, n).1;
    if next' < next then s else M.DemandRange(s, next / 4096, (next' - next) / 4096)
  }

  /** How many of the pages granted `kmalloc` touches at once: all four of a pool's, or the one with the header. */
  function TouchedPages(size: Size): nat {
    if PoolFor(size) == 6 then 1 else 4
  }

  /** The touches of an operation find a frame for every page they touch first. */
  ghost predicate OpBacked(h: Heap, s: S.Space, op: Op) {
    match op
    case MallocOp(size) => MallocBacked(h, s, size)
    case FreeOp(_) => true
    case StoreOp(_, x, _) => CanMap(s, x / 4096)
  }

  ghost predicate MallocBacked(h: Heap, s: S.Space, size: Size) {
    Asks(h, size) && M.Grant(h.next, AskedPages(size)).0 != 0 ==>
      TouchRange(Demanded(s, h.next, AskedPages(size)), h.next / 4096, TouchedPages(size))
  }

  /** The address space after an operation. */
  ghost function SpaceAfter(h: Heap, s: S.Space, op: Op): S.Space {
    match op
    case MallocOp(size) => MallocSpace(h, s, size)
    case FreeOp(a) => if a in h.blocks && h.blocks[a].Large? then S.ReleaseRange(s, a / 4096, h.blocks[a].pages) else s
    case StoreOp(_, x, _) => S.Fault(s, x / 4096)
  }

  ghost function MallocSpace(h: Heap, s: S.Space, size: Size): S.Space {
    if !Asks(h, size) then s
    else
      var d := Demanded(s, h.next, AskedPages(size));
      if M.Grant(h.next, AskedPages(size)).0 == 0 then d else FaultRange(d, h.next / 4096, TouchedPages(size))
  }

  /** `MMU_alloc_pages` leaves the interrupt depth two too high when heap addresses run out. */
  ghost function MallocLeak(h: Heap, size: Size): nat {
    if Asks(h, size) && 0 < AskedPages(size) && M.Grant(h.next, AskedPages(size)).0 == 0 then 2 else 0
  }

  /** The whole run goes through: no frame out of reach is touched, and every first touch of a page finds a frame. */
  ghost predicate RunGoesThrough(h: Heap, s: S.Space, ops: seq<Op>)
    requires AllowedRun(h, ops)
    decreases |ops|
  {
    ops == [] ||
    (OpReaches(h, s, ops[0]) && OpBacked(h, s, ops[0]) && RunGoesThrough(Step(h, ops[0]), SpaceAfter(h, s, ops[0]), ops[1..]))
  }

  /** Four pages carved into blocks of pool `i`. */
  function CarveAll(h: Heap, i: nat, first: nat): Heap {
    if i < |h.free| then Carve(h, i, first, 16384 / BlockSize(i)) else h
  }

  /** A refill of a pool goes through, and the address space after it. */
  ghost predicate RefillThrough(h: Heap, s: S.Space) {
    && M.GrantReaches(s, h.next, 4)
    && (M.Grant(h.next, 4).0 != 0 ==> TouchRange(Demanded(s, h.next, 4), h.next / 4096, 4))
  }

  ghost function RefillSpace(h: Heap, s: S.Space): S.Space {
    var d := Demanded(s, h.next, 4);
    if M.Grant(h.next, 4).0 == 0 then d else FaultRange(d, h.next / 4096, 4)
  }

  class KernelHeap {
    const mmu: M.Mmu
    var freeHeads: seq<nat>       // free_head of each pool
    var hung: bool                // the memory manager is hung, or an access faults for ever
    ghost var hungAt: nat
    ghost var words: Words        // the words stored in the heap so far and not released
    ghost var heap: Heap

    ghost predicate Valid()
      reads this, mmu
    {
      && !hung && mmu.HeapValid() && mmu.nextHeapVaddr == heap.next
      && Represents(words, freeHeads, heap) && Backs(mmu.mem, mmu.space, words)
    }

    /** An access to a page of the heap or of a stack faults for ever: the page has no frame and gets none. */
    ghost predicate NoFrame()
      reads this, mmu
    {
      mmu.HeapValid() && S.Managed(hungAt / 4096) && !CanMap(mmu.space, hungAt / 4096)
    }

    ghost predicate Stopped()
      reads this, mmu
    {
      hung && (mmu.hung || NoFrame())
    }

    constructor (m: M.Mmu)
      requires m.HeapValid() && m.nextHeapVaddr == M.HEAP_START
      ensures mmu == m && Valid() && heap == EMPTY && words == map[]
    {
      hide Represents, T.Represents;
      EmptyRepresents();
      mmu, freeHeads, hung := m, [0, 0, 0, 0, 0, 0], false;
      hungAt, words, heap := 0, map[], EMPTY;
    }

    /** `MMU_alloc_pages`. */
    method AllocPages(n: int) returns (r: nat)
      requires !hung && mmu.HeapValid() && Backs(mmu.mem, mmu.space, words)
      modifies `hung, mmu`mem, mmu`freeSegments, mmu`freePageHead, mmu`space, mmu`hung, mmu`nextHeapVaddr, mmu`irqDepth
      ensures (hung <==> mmu.hung) && (hung <==> !M.GrantReaches(old(mmu.space), old(mmu.nextHeapVaddr), n))
      ensures T.Within(old(mmu.mem), old(mmu.space), mmu.mem, mmu.space)
      ensures !hung ==> mmu.HeapValid() && Backs(mmu.mem, mmu.space, words)
      ensures !hung ==> (r, mmu.nextHeapVaddr) == M.Grant(old(mmu.nextHeapVaddr), n)
      ensures !hung ==> mmu.space == Demanded(old(mmu.space), old(mmu.nextHeapVaddr), n)
      ensures !hung ==> mmu.irqDepth == if r == 0 && 0 < n then old(mmu.irqDepth) + 2 else old(mmu.irqDepth)
    {
      hide S.WellFormed, T.Encodes, Backs, T.Kept, T.StillBacked, T.Within, M.GrantReaches, M.DemandRange;
      ghost var mem, s := mmu.mem, mmu.space;
      r := mmu.AllocPages(n);
      if mmu.hung {
        hung := true;
        return;
      }
      BacksKept(mem, s, mmu.mem, mmu.space, words);
    }

    /** A store to the heap. */
    method Put(x: nat, w: nat)
      requires !hung && mmu.HeapValid() && Backs(mmu.mem, mmu.space, words)
      requires M.HEAP_START <= x < M.HEAP_END && x % 8 == 0 && w < 0x1_0000_0000_0000_0000
      modifies `hung, `hungAt, `words, mmu`mem, mmu`freeSegments, mmu`freePageHead, mmu`space
      ensures mmu.HeapValid() && Backs(mmu.mem, mmu.space, words)
      ensures T.Within(old(mmu.mem), old(mmu.space), mmu.mem, mmu.space)
      ensures if hung then NoFrame() && words == old(words) else words == old(words)[x := w]
      ensures (hung <==> !CanMap(old(mmu.space), x / 4096)) && mmu.space == S.Fault(old(mmu.space), x / 4096)
      ensures x in old(words) ==> !hung && mmu.space == old(mmu.space)
    {
      hide S.WellFormed, T.Encodes, T.Represents, T.Within, P.Pack;
      HeapIsManaged(x);
      TouchMaps(mmu.space, x / 4096);
      assert x in words ==> Backed(mmu.mem, mmu.space, x, words[x]);
      var ok := Store(mmu, x, w, words);
      if ok {
        words := words[x := w];
      } else {
        hung, hungAt := true, x;
      }
    }

    /** `kmalloc_increase_pool`. */
    method IncreasePool(i: nat) returns (r: int)
      requires Valid() && i < 6 && |heap.free| == 6 && |freeHeads| == 6
      modifies this, mmu`mem, mmu`freeSegments, mmu`freePageHead, mmu`freePageTail, mmu`space, mmu`hung
      modifies mmu`nextHeapVaddr, mmu`irqDepth
      ensures mmu.hung <==> old(heap).free[i] == [] && !M.GrantReaches(old(mmu.space), old(heap).next, 4)
      ensures T.Within(old(mmu.mem), old(mmu.space), mmu.mem, mmu.space)
      ensures (mmu.hung ==> hung) && (hung ==> Stopped())
      ensures !hung ==> Valid() && |heap.free| == 6 && SamePayload(old(heap), old(words), words)
      ensures !hung ==> heap == if old(heap).free[i] == [] then Refill(old(heap), i) else old(heap)
      ensures !hung ==> (r == 0 <==> heap.free[i] != []) && (r == 0 || r == -1)
      ensures hung <==> old(heap).free[i] == [] && !RefillThrough(old(heap), old(mmu.space))
      ensures !hung ==> mmu.space == if old(heap).free[i] == [] then RefillSpace(old(heap), old(mmu.space)) else old(mmu.space)
      ensures !hung ==> mmu.irqDepth == old(mmu.irqDepth) + if r == -1 then 2 else 0
    {
      hide Headers, Stacks, Disjoint, Sorted, Sized, Backs, T.Represents, SamePayload, T.Within, M.GrantReaches;
      hide TouchRange, FaultRange, M.DemandRange;
      HeadTells(words, freeHeads, heap, i);
      PayloadRefl(heap, words);
      T.WithinRefl(mmu.mem, mmu.space, mmu.space);
      if freeHeads[i] != 0 {
        return 0;
      }
      RefillWellFormed(heap, i);
      PageOnBoundary(heap.next, Small(i));
      var first := AllocPages(4);
      if hung {
        return -1;
      }
      ghost var mem1, s1 := mmu.mem, mmu.space;
      var next := mmu.nextHeapVaddr;
      GrowNext(heap, next);
      StacksOfSameFree(words, freeHeads, heap, heap.(next := next));
      HeadersOfSameBlocks(words, heap, heap.(next := next));
      heap := heap.(next := next);
      if first == 0 {
        return -1;
      }
      CarvePages(i, first, old(heap), old(words));
      T.WithinThen(old(mmu.mem), old(mmu.space), mem1, s1, mmu.mem, mmu.space);
      return 0;
    }

    /** The carving loop, on the four pages from `first` on. */
    method CarvePages(i: nat, first: nat, ghost h0: Heap, ghost words0: Words)
      requires i < 6 && |heap.free| == 6 && |freeHeads| == 6 && heap.free[i] == []
      requires M.HEAP_START <= first && first + 16384 == heap.next <= M.HEAP_END && first % 4096 == 0
      requires !hung && mmu.HeapValid() && Backs(mmu.mem, mmu.space, words) && mmu.nextHeapVaddr == heap.next
      requires Headers(words, heap) && Stacks(words, freeHeads, heap) && Disjoint(heap, first) && Sorted(heap) && Sized(heap)
      requires words == words0 && heap == h0.(next := heap.next)
      modifies this, mmu`mem, mmu`freeSegments, mmu`freePageHead, mmu`space
      ensures T.Within(old(mmu.mem), old(mmu.space), mmu.mem, mmu.space)
      ensures hung ==> NoFrame()
      ensures hung <==> !TouchRange(old(mmu.space), first / 4096, 4)
      ensures !hung ==> mmu.space == FaultRange(old(mmu.space), first / 4096, 4)
      ensures !hung ==> mmu.HeapValid() && Backs(mmu.mem, mmu.space, words) && mmu.nextHeapVaddr == heap.next
      ensures !hung ==> Headers(words, heap) && Stacks(words, freeHeads, heap)
      ensures !hung ==> heap == CarveAll(old(heap), i, first) && SamePayload(h0, words0, words)
    {
      hide Headers, Stacks, Disjoint, Sorted, Sized, Backs, T.Represents, SamePayload, SameLive, AddFree, S.Fault, Carve;
      hide T.Within, TouchRange, FaultRange;
      var cur, size := first, BlockSize(i);
      PageOnBoundary(first, Small(i));
      ghost var s, v := mmu.space, first / 4096;
      NoTouches(s, v);
      var numBlocks := 16384 / size;
      var last: nat := 0;
      ghost var full := Carve(heap, i, first, numBlocks);
      PayloadRefl(h0, words);
      SameLiveRefl(h0, heap);
      T.WithinRefl(mmu.mem, mmu.space, mmu.space);
      for k := 0 to numBlocks
        invariant !hung && mmu.HeapValid() && Backs(mmu.mem, mmu.space, words) && mmu.nextHeapVaddr == heap.next
        invariant T.Within(old(mmu.mem), old(mmu.space), mmu.mem, mmu.space)
        invariant Headers(words, heap) && Stacks(words, freeHeads, heap) && Disjoint(heap, cur) && Sorted(heap) && Sized(heap)
        invariant |heap.free| == 6 && |freeHeads| == 6 && M.HEAP_START <= cur && heap.next == first + 16384
        invariant cur == first + k * size && cur % 32 == 0
        invariant |heap.free[i]| == k && (k > 0 ==> last == heap.free[i][k - 1])
        invariant full == Carve(heap, i, cur, numBlocks - k)
        invariant SamePayload(h0, words0, words) && SameLive(h0, heap)
        invariant TouchRange(s, v, PagesFilled(k, size)) && mmu.space == FaultRange(s, v, PagesFilled(k, size))
      {
        BlockFits(k, size, first);
        NextTouch(s, first, k, size);
        CarveUnfold(heap, i, cur, numBlocks - k);
        ghost var h, mem := heap, words;
        ghost var m0, s0 := mmu.mem, mmu.space;
        CarveBlock(i, cur, last);
        T.WithinThen(old(mmu.mem), old(mmu.space), m0, s0, mmu.mem, mmu.space);
        if hung {
          return;
        }
        SamePayloadThen(h0, h, words0, mem, words);
        SameLiveThen(h0, h, heap);
        last := cur;
        cur := cur + size;
      }
      CarveNone(heap, i, cur);
      AllFilled(size);
    }

    /** One turn of the carving loop: the block at `cur` joins the end of the pool's list, behind `last`. */
    method CarveBlock(i: nat, cur: nat, last: nat)
      requires !hung && mmu.HeapValid() && Backs(mmu.mem, mmu.space, words)
      requires Headers(words, heap) && Stacks(words, freeHeads, heap) && Disjoint(heap, cur) && Sorted(heap) && Sized(heap)
      requires i < 6 && |heap.free| == 6 && |freeHeads| == 6
      requires M.HEAP_START <= cur && cur + 32 <= M.HEAP_END && cur % 32 == 0
      requires heap.free[i] != [] ==> last == heap.free[i][|heap.free[i]| - 1]
      modifies this, mmu`mem, mmu`freeSegments, mmu`freePageHead, mmu`space
      ensures T.Within(old(mmu.mem), old(mmu.space), mmu.mem, mmu.space)
      ensures hung ==> NoFrame()
      ensures !hung ==> mmu.HeapValid() && Backs(mmu.mem, mmu.space, words)
      ensures !hung ==> Headers(words, heap) && Stacks(words, freeHeads, heap)
      ensures !hung ==> Disjoint(heap, cur + BlockSize(i)) && (cur + BlockSize(i)) % 32 == 0 && Sorted(heap) && Sized(heap)
      ensures !hung ==> heap == AddFree(old(heap), i, cur) && SamePayload(old(heap), old(words), words)
      ensures !hung ==> |freeHeads| == 6 && |heap.free| == 6 && SameLive(old(heap), heap)
      ensures !hung ==> heap.free[i] == old(heap).free[i] + [cur] && heap.next == old(heap).next
      ensures (hung <==> !CanMap(old(mmu.space), cur / 4096)) && (!hung ==> mmu.space == S.Fault(old(mmu.space), cur / 4096))
    {
      hide Headers, Disjoint, Sorted, Sized, Backs, T.Represents, SamePayload, Linked, T.Within, S.Fault, CanMap;
      CarveStep(words, freeHeads, heap, i, cur);
      CarveKeepsPayload(heap, words, i, cur);
      AddFreeDisjoint(heap, i, cur);
      assert heap.free[i] == [] || last == heap.free[i][|heap.free[i]| - 1];
      HeadsTell(words, freeHeads, heap, i, cur);
      BoundaryMeans(cur, Small(i));
      T.WithinRefl(mmu.mem, mmu.space, mmu.space);
      if freeHeads[i] == 0 {
        freeHeads := freeHeads[i := cur];
      } else {
        LastInHeap(heap, i, cur);
        LastHeader(words, heap, i);
        Put(last + 8, cur);
      }
      SamePage(cur);
      ghost var mem1, s1 := mmu.mem, mmu.space;
      WriteHeader(cur, i + 1, 0);
      T.WithinThen(old(mmu.mem), old(mmu.space), mem1, s1, mmu.mem, mmu.space);
      if hung {
        return;
      }
      heap := AddFree(heap, i, cur);
    }

    /** The two fields of a header. */
    method WriteHeader(a: nat, pool: nat, next: nat)
      requires !hung && mmu.HeapValid() && Backs(mmu.mem, mmu.space, words)
      requires M.HEAP_START <= a && a + 8 < M.HEAP_END && a % 8 == 0 && (a + 8) % 8 == 0 && (a + 8) / 4096 == a / 4096
      requires pool < 0x1_0000_0000_0000_0000 && next < 0x1_0000_0000_0000_0000
      modifies `hung, `hungAt, `words, mmu`mem, mmu`freeSegments, mmu`freePageHead, mmu`space
      ensures T.Within(old(mmu.mem), old(mmu.space), mmu.mem, mmu.space)
      ensures hung ==> NoFrame()
      ensures !hung ==> mmu.HeapValid() && Backs(mmu.mem, mmu.space, words)
      ensures !hung ==> words == old(words)[a := pool][a + 8 := next]
      ensures (hung <==> !CanMap(old(mmu.space), a / 4096)) && (!hung ==> mmu.space == S.Fault(old(mmu.space), a / 4096))
    {
      hide Backs, T.Represents, T.Within, S.Fault, CanMap;
      TouchMaps(mmu.space, a / 4096);
      TouchMaps(S.Fault(mmu.space, a / 4096), a / 4096);
      MappedCanMap(S.Fault(mmu.space, a / 4096), a / 4096);
      Put(a, pool);
      if hung {
        return;
      }
      ghost var mem1, s1 := mmu.mem, mmu.space;
      Put(a + 8, next);
      T.WithinThen(old(mmu.mem), old(mmu.space), mem1, s1, mmu.mem, mmu.space);
    }

    /** `kmalloc_alloc` for a request that belongs in pool `i`. */
    method PoolAlloc(i: nat, ghost size: Size) returns (a: nat)
      requires Valid() && i < 6 && |heap.free| == 6 && PoolFor(size) == i && 0 < size
      modifies this, mmu`mem, mmu`freeSegments, mmu`freePageHead, mmu`freePageTail, mmu`space, mmu`hung
      modifies mmu`nextHeapVaddr, mmu`irqDepth
      ensures mmu.hung <==> old(heap).free[i] == [] && !M.GrantReaches(old(mmu.space), old(heap).next, 4)
      ensures T.Within(old(mmu.mem), old(mmu.space), mmu.mem, mmu.space)
      ensures (mmu.hung ==> hung) && (hung ==> Stopped())
      ensures !hung ==> Valid() && SamePayload(old(heap), old(words), words)
      ensures !hung ==>
                var h := if old(heap).free[i] == [] then Refill(old(heap), i) else old(heap);
                && heap == TakeSmall(h, i, size).0
                && (if h.free[i] == [] then a == 0 else a == h.free[i][0])
      ensures hung <==> old(heap).free[i] == [] && !RefillThrough(old(heap), old(mmu.space))
      ensures !hung ==> mmu.space == if old(heap).free[i] == [] then RefillSpace(old(heap), old(mmu.space)) else old(mmu.space)
      ensures !hung ==> mmu.irqDepth == old(mmu.irqDepth) + if a == 0 then 2 else 0
    {
      hide Headers, Stacks, Disjoint, Sorted, Sized, Refill, PoolFor, Backs, T.Represents, SamePayload, T.Within;
      hide M.GrantReaches, RefillThrough, RefillSpace;
      PoolBlockNotNull(if heap.free[i] == [] then Refill(heap, i) else heap, heap, i);
      HeadTells(words, freeHeads, heap, i);
      PayloadRefl(heap, words);
      T.WithinRefl(mmu.mem, mmu.space, mmu.space);
      a := 0;
      if freeHeads[i] == 0 {
        RefillKeeps(heap, i);
        var r := IncreasePool(i);
        if hung || r < 0 {
          return;
        }
      }
      ghost var mem1, s1 := mmu.mem, mmu.space;
      HeadTells(words, freeHeads, heap, i);
      FirstHeader(words, heap, i);
      TakeRepresents(words, freeHeads, heap, i, size);
      NextKeepsPayload(heap, heap.next, words, freeHeads[i], 0);
      SamePayloadThen(old(heap), heap, old(words), words, words[freeHeads[i] + 8 := 0]);
      a := freeHeads[i];
      var second := Load(mmu, a + 8, words);
      freeHeads := freeHeads[i := second];
      Put(a + 8, 0);
      T.WithinThen(old(mmu.mem), old(mmu.space), mem1, s1, mmu.mem, mmu.space);
      heap := TakeSmall(heap, i, size).0;
    }

    /** `kmalloc`. */
    method Alloc(size: Size) returns (addr: nat)
      requires Valid() && |heap.free| == 6
      modifies this, mmu`mem, mmu`freeSegments, mmu`freePageHead, mmu`freePageTail, mmu`space, mmu`hung
      modifies mmu`nextHeapVaddr, mmu`irqDepth
      ensures mmu.hung <==> !MallocReaches(old(heap), old(mmu.space), size)
      ensures T.Within(old(mmu.mem), old(mmu.space), mmu.mem, mmu.space)
      ensures (mmu.hung ==> hung) && (hung ==> Stopped())
      ensures !hung ==> Valid() && (heap, addr) == Malloc(old(heap), size) && SamePayload(old(heap), old(words), words)
      ensures hung <==> !(MallocReaches(old(heap), old(mmu.space), size) && MallocBacked(old(heap), old(mmu.space), size))
      ensures !hung ==> mmu.space == MallocSpace(old(heap), old(mmu.space), size)
      ensures !hung ==> mmu.irqDepth == old(mmu.irqDepth) + MallocLeak(old(heap), size)
      ensures !hung ==> (addr == 0 <==> NoBlock(old(heap), size)) && (addr != 0 ==> Given(old(heap), size, heap, addr))
    {
      hide Headers, Stacks, Disjoint, Sorted, Sized, Refill, Backs, T.Represents, SamePayload, T.Within, M.GrantReaches;
      hide Gross, TouchRange, FaultRange, Demanded, NoBlock, Given;
      MallocResult(heap, size);
      PayloadRefl(heap, words);
      T.WithinRefl(mmu.mem, mmu.space, mmu.space);
      if size == 0 {
        return 0;
      }
      for i := 0 to 6
        invariant Valid() && heap == old(heap) && words == old(words) && i <= PoolFor(size)
        invariant mmu.space == old(mmu.space) && mmu.mem == old(mmu.mem) && mmu.irqDepth == old(mmu.irqDepth)
      {
        if Gross(size) <= BlockSize(i) {
          ghost var h := if heap.free[i] == [] then Refill(heap, i) else heap;
          PoolBlockNotNull(h, heap, i);
          if heap.free[i] == [] {
            RefillWellFormed(heap, i);
          }
          var ret := PoolAlloc(i, size);
          if ret == 0 {
            return 0;
          }
          return ret + 16;
        }
      }
      OneTouch(Demanded(mmu.space, heap.next, PagesFor(size)), heap.next / 4096);
      addr := LargeAlloc(size);
    }

    /** `kmalloc` of a size no pool serves. */
    method LargeAlloc(size: Size) returns (addr: nat)
      requires Valid() && |heap.free| == 6 && PoolFor(size) == 6
      modifies this, mmu`mem, mmu`freeSegments, mmu`freePageHead, mmu`freePageTail, mmu`space, mmu`hung
      modifies mmu`nextHeapVaddr, mmu`irqDepth
      ensures mmu.hung <==> !M.GrantReaches(old(mmu.space), old(heap).next, PagesFor(size))
      ensures T.Within(old(mmu.mem), old(mmu.space), mmu.mem, mmu.space)
      ensures (mmu.hung ==> hung) && (hung ==> Stopped())
      ensures !hung ==> Valid() && (heap, addr) == TakeLarge(old(heap), size) && SamePayload(old(heap), old(words), words)
      ensures hung <==>
                || !M.GrantReaches(old(mmu.space), old(heap).next, PagesFor(size))
                || (M.Grant(old(heap).next, PagesFor(size)).0 != 0
                    && !CanMap(Demanded(old(mmu.space), old(heap).next, PagesFor(size)), old(heap).next / 4096))
      ensures !hung ==>
                var d := Demanded(old(mmu.space), old(heap).next, PagesFor(size));
                mmu.space == if addr == 0 then d else S.Fault(d, old(heap).next / 4096)
      ensures !hung ==> mmu.irqDepth == old(mmu.irqDepth) + if addr == 0 && 0 < PagesFor(size) then 2 else 0
    {
      hide Headers, Stacks, Disjoint, Sorted, Sized, Backs, T.Represents, SamePayload, PoolFor, PagesFor, T.Within;
      hide M.GrantReaches, Demanded, CanMap, S.Fault;
      PoolForPositive(size);
      PayloadRefl(heap, words);
      var numPages := CountPages(size);
      TakeLargeWellFormed(heap, size);
      var ret := AllocPages(numPages);
      if hung {
        return 0;
      }
      ghost var mem1, s1 := mmu.mem, mmu.space;
      if ret == 0 {
        GrowNext(heap, mmu.nextHeapVaddr);
        StacksOfSameFree(words, freeHeads, heap, TakeLarge(heap, size).0);
        HeadersOfSameBlocks(words, heap, TakeLarge(heap, size).0);
        heap := TakeLarge(heap, size).0;
        return 0;
      }
      LargeHeaderFits(ret, numPages);
      LargeRepresents(words, freeHeads, heap, size);
      AboveKeepsPayload(heap, heap.next, words, ret, 0, numPages);
      WriteHeader(ret, 0, numPages);
      T.WithinThen(old(mmu.mem), old(mmu.space), mem1, s1, mmu.mem, mmu.space);
      if hung {
        return 0;
      }
      heap := TakeLarge(heap, size).0;
      return ret + 16;
    }

    /**
      `kfree` of an address `kmalloc` returned: the header names the pool the block goes back to, or the pages to
      release. It gets no further exactly when a frame of those pages is out of the kernel's reach.
     */
    method Dealloc(addr: nat)
      requires 16 <= addr && Allowed(heap, FreeOp(addr - 16)) && Valid()
      modifies this, mmu`mem, mmu`freeSegments, mmu`freePageHead, mmu`freePageTail, mmu`space, mmu`hung
      modifies mmu`nextHeapVaddr, mmu`irqDepth
      ensures (hung <==> mmu.hung) && (hung <==> !OpReaches(old(heap), old(mmu.space), FreeOp(addr - 16)))
      ensures T.Within(old(mmu.mem), old(mmu.space), mmu.mem, mmu.space)
      ensures !hung ==> Valid() && heap == Step(old(heap), FreeOp(addr - 16))
      ensures !hung ==> SamePayload(old(heap).(live := old(heap).live - {addr - 16}), old(words), words)
      ensures !hung ==> mmu.space == SpaceAfter(old(heap), old(mmu.space), FreeOp(addr - 16))
    {
      hide Headers, Stacks, Disjoint, Sorted, Sized, Backs, T.Represents, SamePayload, S.ReleaseRange, T.Within;
      hide M.RangeReaches;
      var block := addr - 16;
      HeaderTells(words, freeHeads, heap, block);
      BlockInHeap(heap, block);
      var pool := Load(mmu, block, words);
      if pool == 0 {
        var pages := Load(mmu, block + 8, words);
        FreeLargeRepresents(words, freeHeads, heap, block);
        OutsideKeepsPayload(heap, words, block);
        ReleaseWords(block, pages);
        if hung {
          return;
        }
        heap := Free(heap, block);
      } else {
        FreeSmall(block, pool - 1);
      }
    }

    /** `kfree` of a block of pool `i`: the header has been written before, so its page is mapped. */
    method FreeSmall(block: nat, i: nat)
      requires Valid() && block in heap.live && block in heap.blocks && heap.blocks[block] == Small(i) && i < 6
      requires |heap.free| == 6
      modifies this, mmu`mem, mmu`freeSegments, mmu`freePageHead, mmu`space
      ensures Valid() && heap == Free(old(heap), block) && mmu.space == old(mmu.space)
      ensures T.Within(old(mmu.mem), old(mmu.space), mmu.mem, mmu.space)
      ensures SamePayload(old(heap).(live := old(heap).live - {block}), old(words), words)
    {
      hide Headers, Stacks, Disjoint, Sorted, Sized, Backs, T.Represents, SamePayload, T.Within;
      BlockInHeap(heap, block);
      HeaderTells(words, freeHeads, heap, block);
      FreeSmallRepresents(words, freeHeads, heap, block);
      NextKeepsPayload(heap, heap.next, words, block, freeHeads[i]);
      FewerLive(heap, block, words, words[block + 8 := freeHeads[i]]);
      HeadInHeap(words, freeHeads, heap, i);
      Put(block + 8, freeHeads[i]);
      freeHeads := freeHeads[i := block];
      heap := Free(heap, block);
    }

    /** `MMU_free_pages` for a block of pages. */
    method ReleaseWords(block: nat, pages: nat)
      requires !hung && mmu.HeapValid() && Backs(mmu.mem, mmu.space, words)
      requires block % 4096 == 0 && M.HEAP_START <= block && block + 4096 * pages <= M.HEAP_END
      modifies `words, `hung, mmu`mem, mmu`freePageHead, mmu`freePageTail, mmu`space, mmu`hung
      ensures (hung <==> mmu.hung) && (hung <==> !M.RangeReaches(old(mmu.space), block / 4096, pages))
      ensures T.Within(old(mmu.mem), old(mmu.space), mmu.mem, mmu.space)
      ensures !hung ==> mmu.HeapValid() && Backs(mmu.mem, mmu.space, words) && words == Outside(old(words), block, pages)
      ensures !hung ==> mmu.space == S.ReleaseRange(old(mmu.space), block / 4096, pages)
    {
      hide S.WellFormed, T.Encodes, Backs, T.Kept, S.ReleaseRange, S.Managed, Outside, T.Within, M.RangeReaches;
      ghost var mem, s := mmu.mem, mmu.space;
      forall v | block / 4096 <= v < block / 4096 + pages
        ensures S.Managed(v)
      {
        HeapIsManaged(4096 * v);
        assert 4096 * v / 4096 == v;
      }
      mmu.FreePages(block, pages);
      if mmu.hung {
        hung := true;
        return;
      }
      BacksRelease(mem, s, mmu.mem, block, pages, words);
      words := Outside(words, block, pages);
    }

    /** `MMU_alloc_stack` leaves the heap as it is. */
    method AllocStack() returns (stack: nat)
      requires Valid() && mmu.StacksValid() && S.P4_SPAN + 10 <= mmu.nextStackVaddr / 4096 < 512 * S.P4_SPAN
      modifies `hung, mmu`mem, mmu`freeSegments, mmu`freePageHead, mmu`space, mmu`hung, mmu`nextStackVaddr, mmu`irqDepth
      ensures (hung <==> mmu.hung) && (hung <==> !M.DemandDownReaches(old(mmu.space), old(mmu.nextStackVaddr) / 4096, 10))
      ensures T.Within(old(mmu.mem), old(mmu.space), mmu.mem, mmu.space)
      ensures !hung ==> Valid() && mmu.StacksValid()
      ensures !hung ==> stack == old(mmu.nextStackVaddr) && mmu.nextStackVaddr == stack - 40960
      ensures !hung ==> mmu.space == M.DemandDown(old(mmu.space), stack / 4096, 10) && mmu.irqDepth == old(mmu.irqDepth)
    {
      hide S.WellFormed, T.Encodes, Backs, T.Kept, T.StillBacked, T.Within, M.DemandDownReaches, M.DemandDown, Represents;
      ghost var mem, s := mmu.mem, mmu.space;
      stack := mmu.AllocStack();
      if mmu.hung {
        hung := true;
        return;
      }
      BacksKept(mem, s, mmu.mem, mmu.space, words);
    }

    /** `MMU_free_stack` leaves the heap as it is. */
    method FreeStack(stack: nat)
      requires Valid() && stack % 4096 == 4088 && S.P4_SPAN <= stack / 4096 && stack + 40960 <= M.HEAP_START
      modifies `words, `hung, mmu`mem, mmu`freePageHead, mmu`freePageTail, mmu`space, mmu`hung
      ensures (hung <==> mmu.hung) && (hung <==> !M.RangeReaches(old(mmu.space), stack / 4096, 10))
      ensures T.Within(old(mmu.mem), old(mmu.space), mmu.mem, mmu.space)
      ensures !hung ==> Valid() && words == Outside(old(words), stack - 4088, 10)
      ensures !hung ==> mmu.space == S.ReleaseRange(old(mmu.space), stack / 4096, 10)
    {
      hide S.WellFormed, T.Encodes, Backs, T.Kept, S.ReleaseRange, Outside, T.Within, M.RangeReaches, Represents;
      ghost var mem, s := mmu.mem, mmu.space;
      StackPages(stack);
      mmu.FreeStack(stack);
      if mmu.hung {
        hung := true;
        return;
      }
      BacksRelease(mem, s, mmu.mem, stack - 4088, 10, words);
      BelowRepresents(words, freeHeads, heap, stack - 4088, 10);
      words := Outside(words, stack - 4088, 10);
    }

    /** A store below the heap, to a stack. */
    method StackPut(x: nat, w: nat)
      requires Valid() && S.Managed(x / 4096) && x < M.HEAP_START && x % 8 == 0 && w < 0x1_0000_0000_0000_0000
      modifies `hung, `hungAt, `words, mmu`mem, mmu`freeSegments, mmu`freePageHead, mmu`space
      ensures T.Within(old(mmu.mem), old(mmu.space), mmu.mem, mmu.space)
      ensures hung ==> NoFrame()
      ensures !hung ==> Valid() && words == old(words)[x := w]
    {
      hide S.WellFormed, T.Encodes, T.Represents, T.Within, Represents, Backs;
      BelowStoreRepresents(words, freeHeads, heap, x, w);
      var ok := Store(mmu, x, w, words);
      if ok {
        words := words[x := w];
      } else {
        hung, hungAt := true, x;
      }
    }

    /** A client stores a word inside the payload of a block it holds. */
    method ClientStore(ghost a: nat, x: nat, w: nat)
      requires Valid() && a in heap.live && InPayload(heap, a, x) && w < 0x1_0000_0000_0000_0000
      modifies `hung, `hungAt, `words, mmu`mem, mmu`freeSegments, mmu`freePageHead, mmu`space
      ensures T.Within(old(mmu.mem), old(mmu.space), mmu.mem, mmu.space)
      ensures hung ==> NoFrame()
      ensures (hung <==> !CanMap(old(mmu.space), x / 4096)) && mmu.space == S.Fault(old(mmu.space), x / 4096)
      ensures !hung ==> Valid() && words == old(words)[x := w]
    {
      hide Represents, Backs, T.Represents, T.Within, CanMap, S.Fault;
      StoreRepresents(words, freeHeads, heap, a, x, w);
      PayloadInHeap(words, freeHeads, heap, a, x);
      Put(x, w);
    }

    /** A client loads a word that was stored and gets the value stored. */
    method ClientLoad(x: nat) returns (w: nat)
      requires Valid() && x in words
      ensures w == words[x]
    {
      hide Represents, Backs, T.Represents;
      w := Load(mmu, x, words);
    }

    /** One operation of a client: what it does to the heap, and that it changes no other word a client has stored. */
    method Perform(op: Op) returns (p: nat)
      requires Valid() && Allowed(heap, op)
      modifies this, mmu`mem, mmu`freeSegments, mmu`freePageHead, mmu`freePageTail, mmu`space, mmu`hung
      modifies mmu`nextHeapVaddr, mmu`irqDepth
      ensures mmu.hung <==> !OpReaches(old(heap), old(mmu.space), op)
      ensures hung <==> !(OpReaches(old(heap), old(mmu.space), op) && OpBacked(old(heap), old(mmu.space), op))
      ensures T.Within(old(mmu.mem), old(mmu.space), mmu.mem, mmu.space)
      ensures (mmu.hung ==> hung) && (hung ==> Stopped())
      ensures !hung ==> Valid() && heap == Step(old(heap), op) && mmu.space == SpaceAfter(old(heap), old(mmu.space), op)
      ensures !hung ==> forall a, x :: Spares([op], a, x) ==> Retained(old(heap), old(words), heap, words, a, x)
      ensures !hung && op.StoreOp? ==> op.x in words && words[op.x] == op.w
      ensures !hung ==> p == if op.MallocOp? then Malloc(old(heap), op.size).1 else 0
    {
      hide Represents, Malloc, Free, Backs, T.Represents, InPayload, S.ReleaseRange, T.Within, MallocReaches, M.RangeReaches;
      hide MallocBacked, MallocSpace, MallocLeak, CanMap, S.Fault;
      p := 0;
      match op {
        case MallocOp(size) =>
          p := Alloc(size);
        case FreeOp(a) =>
          Dealloc(a + 16);
        case StoreOp(a, x, w) =>
          ClientStore(a, x, w);
      }
      if !hung {
        StepRetains(old(heap), old(words), op, words, old(freeHeads));
      }
    }

    /**
      Any run of allocations, frees of live blocks and stores into them, on demand-paged memory: the words stay in
      lockstep with the heap of the run, a word stored in a block is still read back at the end unless the block
      was freed or the word itself stored to, clients hold the blocks below the addresses returned to them that they
      have not freed, and nothing is written outside the kernel's frames. The run ends early
      exactly where a page touched for the first time gets no frame, or paging touches a frame out of the kernel's
      reach; the latter never happens when all memory is in reach.
     */
    method Execute(ops: seq<Op>) returns (rets: seq<nat>)
      requires Valid() && AllowedRun(heap, ops)
      modifies this, mmu`mem, mmu`freeSegments, mmu`freePageHead, mmu`freePageTail, mmu`space, mmu`hung
      modifies mmu`nextHeapVaddr, mmu`irqDepth
      ensures T.Within(old(mmu.mem), old(mmu.space), mmu.mem, mmu.space)
      ensures (mmu.hung ==> hung) && (hung ==> Stopped())
      ensures (forall f :: f in old(mmu.space).owner ==> f < P.REACH) ==> !mmu.hung
      ensures hung <==> !RunGoesThrough(old(heap), old(mmu.space), ops)
      ensures !hung ==> Valid() && heap == Run(old(heap), ops) && rets == Returns(old(heap), ops)
      ensures !hung ==> heap.live == Held(old(heap).live, ops, rets)
      ensures !hung ==> forall a, x :: Spares(ops, a, x) ==> Retained(old(heap), old(words), heap, words, a, x)
    {
      hide Represents, Step, Allowed, Backs, T.Represents, InPayload, Spares, Retained, OpReaches, T.Within;
      hide OpBacked, SpaceAfter;
      rets := [];
      assert ops[0..] == ops && ops[..0] == [];
      RetainedRefl(heap, words);
      T.WithinRefl(mmu.mem, mmu.space, mmu.space);
      for i := 0 to |ops|
        invariant Valid() && AllowedRun(heap, ops[i..]) && Run(heap, ops[i..]) == Run(old(heap), ops)
        invariant rets + Returns(heap, ops[i..]) == Returns(old(heap), ops)
        invariant T.Within(old(mmu.mem), old(mmu.space), mmu.mem, mmu.space)
        invariant RunGoesThrough(heap, mmu.space, ops[i..]) == RunGoesThrough(old(heap), old(mmu.space), ops)
        invariant forall a, x :: Spares(ops[..i], a, x) ==> Retained(old(heap), old(words), heap, words, a, x)
      {
        assert ops[i..][0] == ops[i] && ops[i..][1..] == ops[i + 1..];
        assert ops[..i + 1] == ops[..i] + [ops[i]];
        ghost var h, mem := heap, words;
        ghost var m0, s0 := mmu.mem, mmu.space;
        InReachStays(old(mmu.mem), old(mmu.space), m0, s0);
        SmallOpReaches(words, freeHeads, heap, s0, ops[i], m0, mmu.freeSegments, mmu.freePageHead, mmu.freePageTail,
                       mmu.pageTable, mmu.identity);
        var p := Perform(ops[i]);
        T.WithinThen(old(mmu.mem), old(mmu.space), m0, s0, mmu.mem, mmu.space);
        if hung {
          return;
        }
        assert rets + Returns(h, ops[i..]) == (rets + [p]) + Returns(heap, ops[i + 1..]);
        rets := rets + [p];
        RetainedThen(old(heap), old(words), h, mem, heap, words, ops[..i], ops[i]);
      }
      assert ops[|ops|..] == [] && ops[..|ops|] == ops && rets + [] == rets;
      HeldByClients(old(words), old(freeHeads), old(heap), ops);
    }
  }

  lemma {:induction false} HeldByClients(words: Words, heads: seq<nat>, h: Heap, ops: seq<Op>)
    requires Represents(words, heads, h) && AllowedRun(h, ops)
    ensures Run(h, ops).live == Held(h.live, ops, Returns(h, ops))
  {
    hide Disjoint, Sorted, Sized, Headers, Stacks, AllowedRun, Held, Returns, Run;
    RunHeld(h, ops);
  }

  lemma {:induction false} InReachStays(mem: P.Memory, s: S.Space, mem': P.Memory, s': S.Space)
    requires T.Within(mem, s, mem', s')
    ensures (forall f :: f in s.owner ==> f < P.REACH) ==> forall f :: f in s'.owner ==> f < P.REACH
  {
    assert forall f :: f in s'.owner ==> f in s.owner.Keys;
  }

  /** With all memory in reach every operation's paging goes through. */
  lemma {:induction false} SmallOpReaches(words: Words, heads: seq<nat>, h: Heap, s: S.Space, op: Op, mem: P.Memory,
                                          segs: seq<F.Segment>, head: P.Frame, tail: P.Frame, root: P.Frame, identity: P.Frame)
    requires Represents(words, heads, h) && T.Represents(mem, segs, head, tail, root, identity, s)
    ensures (forall f :: f in s.owner ==> f < P.REACH) ==> OpReaches(h, s, op)
  {
    hide Headers, Stacks, Disjoint, Sorted, Sized, S.WellFormed, T.Encodes, F.Queue, PoolFor, PagesFor;
    if forall f :: f in s.owner ==> f < P.REACH {
      match op
      case MallocOp(size) => SmallGrantReaches(s, h.next, if PoolFor(size) == 6 then PagesFor(size) else 4);
      case FreeOp(a) =>
        if a in h.blocks && h.blocks[a].Large? {
          SmallRangeReaches(s, a / 4096, h.blocks[a].pages);
        }
      case StoreOp(_, _, _) =>
    }
  }

  lemma {:induction false} SmallRangeReaches(s: S.Space, v: S.Page, n: nat)
    requires S.WellFormed(s) && forall f :: f in s.owner ==> f < P.REACH
    ensures M.RangeReaches(s, v, n)
  {
  }

  lemma {:induction false} SmallGrantReaches(s: S.Space, next: nat, n: int)
    requires S.WellFormed(s) && (forall f :: f in s.owner ==> f < P.REACH)
    requires M.HEAP_START <= next <= M.HEAP_END && next % 4096 == 0
    ensures M.GrantReaches(s, next, n)
  {
    hide S.WellFormed, M.DemandRangeReaches, M.Grant;
    var pages := GrantedPages(next, n);
    HeapPages(next, pages);
    SmallDemandReaches(s, next / 4096, pages);
  }

  /** A grant moves the next heap address on by whole pages. */
  lemma {:induction false} GrantedPages(next: nat, n: int) returns (pages: nat)
    requires M.HEAP_START <= next <= M.HEAP_END && next % 4096 == 0
    ensures M.Grant(next, n).1 == next + 4096 * pages <= M.HEAP_END && (M.Grant(next, n).1 - next) / 4096 == pages
  {
    if n <= 0 {
      pages := 0;
    } else if next + 4096 * n <= M.HEAP_END {
      pages := n;
    } else {
      pages := (M.HEAP_END - next) / 4096;
      WholePages(next);
    }
  }

  lemma {:induction false} WholePages(next: nat)
    requires next <= M.HEAP_END && next % 4096 == 0
    ensures 4096 * ((M.HEAP_END - next) / 4096) == M.HEAP_END - next
  {
    var k := next / 4096;
    assert M.HEAP_END - next == 4096 * (0x1_0000_0000 - k);
  }

  lemma {:induction false} HeapPages(next: nat, pages: nat)
    requires M.HEAP_START <= next && next + 4096 * pages <= M.HEAP_END && next % 4096 == 0
    ensures forall v :: next / 4096 <= v < next / 4096 + pages ==> S.Managed(v)
  {
    forall v | next / 4096 <= v < next / 4096 + pages
      ensures S.Managed(v)
    {
      HeapIsManaged(4096 * v);
      assert 4096 * v / 4096 == v;
    }
  }

  lemma {:induction false} SmallDemandReaches(s: S.Space, v: S.Page, n: nat)
    requires S.WellFormed(s) && (forall f :: f in s.owner ==> f < P.REACH)
    requires forall w :: v <= w < v + n ==> S.Managed(w)
    ensures M.DemandRangeReaches(s, v, n)
    ensures S.WellFormed(M.DemandRange(s, v, n)) && M.DemandRange(s, v, n).owner.Keys == s.owner.Keys
    decreases n
  {
    hide S.WellFormed, S.Managed, S.Demand, S.Reaches;
    if n > 0 {
      SmallDemandReaches(s, v, n - 1);
      var t := M.DemandRange(s, v, n - 1);
      assert forall f :: f in t.owner ==> f in s.owner.Keys;
      S.SmallReaches(t, S.DemandOp(v + n - 1));
      S.DemandWellFormed(t, v + n - 1);
    }
  }

  /** `num_pages` as the code computes it. */
  method CountPages(size: Size) returns (n: int)
    ensures n == PagesFor(size)
  {
    n := ToInt(size / 4096);
    if size % 4096 != 0 {
      n := ToInt(n + 1);
    }
    ToIntStep(size / 4096);
  }

  lemma {:induction false} ToIntStep(q: nat)
    ensures ToInt(ToInt(q) + 1) == ToInt(q + 1)
  {
  }

  /** A block taken from a pool is not at address 0. */
  lemma {:induction false} PoolBlockNotNull(h: Heap, h0: Heap, i: nat)
    requires WellFormed(h0) && i < 6 && |h0.free| == 6 && h == if h0.free[i] == [] then Refill(h0, i) else h0
    ensures |h.free| == 6 && (h.free[i] != [] ==> h.free[i][0] != 0)
  {
    if h0.free[i] == [] {
      RefillWellFormed(h0, i);
    }
    assert Stack(h, i);
    if h.free[i] != [] {
      assert h.free[i][0] in h.free[i];
    }
  }

  lemma {:induction false} PayloadRefl(h: Heap, mem: Words)
    ensures SamePayload(h, mem, mem)
  {
  }

  lemma {:induction false} CarveUnfold(h: Heap, i: nat, a: nat, n: nat)
    requires i < |h.free| && 0 < n
    ensures |AddFree(h, i, a).free| == |h.free| && Carve(h, i, a, n) == Carve(AddFree(h, i, a), i, a + BlockSize(i), n - 1)
  {
  }

  lemma {:induction false} CarveNone(h: Heap, i: nat, a: nat)
    requires i < |h.free|
    ensures Carve(h, i, a, 0) == h
  {
  }

  lemma {:induction false} BlockFits(k: nat, size: Size, first: nat)
    requires size in {32, 64, 128, 512, 1024, 2048} && k < 16384 / size
    ensures first + k * size + size <= first + 16384 && (k + 1) * size == k * size + size
  {
  }

  lemma {:induction false} RefillKeeps(h: Heap, i: nat)
    requires WellFormed(h) && i < 6 && |h.free| == 6
    ensures SameLive(h, Refill(h, i))
  {
    hide Carve, Sized, Sorted;
    var (base, next) := M.Grant(h.next, 4);
    forall a | a in h.live && a in h.blocks
      ensures a in Refill(h, i).live && a in Refill(h, i).blocks && Refill(h, i).blocks[a] == h.blocks[a]
    {
      if base != 0 {
        CarveKeeps(h.(next := next), i, base, 16384 / BlockSize(i), a);
      }
    }
  }

  lemma {:induction false} LastInHeap(h: Heap, i: nat, top: nat)
    requires Disjoint(h, top) && Sorted(h) && i < 6 && |h.free| == 6 && h.free[i] != [] && top <= M.HEAP_END
    ensures var last := h.free[i][|h.free[i]| - 1]; M.HEAP_START <= last && last + 32 <= top && (last + 8) % 8 == 0
  {
    hide Sorted, OnBoundary;
    LastIsSmall(h, i);
    var last := h.free[i][|h.free[i]| - 1];
    BoundaryMeans(last, h.blocks[last]);
  }

  lemma {:induction false} FirstHeader(mem: Words, h: Heap, i: nat)
    requires WellFormed(h) && Headers(mem, h) && i < 6 && |h.free| == 6 && h.free[i] != []
    ensures var a := h.free[i][0]; a in h.blocks && a + 8 in mem && Word(mem, a + 8) == mem[a + 8]
    ensures var a := h.free[i][0]; M.HEAP_START <= a && a + 32 <= M.HEAP_END && (a + 8) % 8 == 0
  {
    hide Sorted, Sized, Disjoint;
    FirstIsSmall(h, i);
    var a := h.free[i][0];
    BlockInHeap(h, a);
    assert Header(mem, a, h.blocks[a]);
  }

  lemma {:induction false} PoolForPositive(size: Size)
    requires PoolFor(size) == 6
    ensures 0 < size
  {
  }

  lemma {:induction false} BlockInHeap(h: Heap, a: nat)
    requires WellFormed(h) && a in h.blocks
    ensures M.HEAP_START <= a && a + Extent(h.blocks[a]) <= M.HEAP_END && 32 <= Extent(h.blocks[a]) && a % 8 == 0 && (a + 8) % 8 == 0
    ensures h.blocks[a].Large? ==> a % 4096 == 0
  {
    hide Sorted, Sized, OnBoundary, Extent;
    BoundaryMeans(a, h.blocks[a]);
  }

  lemma {:induction false} LargeHeaderFits(a: nat, n: nat)
    requires a % 4096 == 0 && 0 < n && a + 4096 * n <= M.HEAP_END
    ensures a % 8 == 0 && (a + 8) % 8 == 0 && a + 8 < M.HEAP_END && n < 0x1_0000_0000_0000_0000
  {
    MultipleOfEight(a, 512 * (a / 4096));
  }

  lemma {:induction false} MultipleOfEight(a: nat, k: nat)
    requires a == 8 * k
    ensures a % 8 == 0 && (a + 8) % 8 == 0
  {
    assert a + 8 == 8 * (k + 1);
  }

  lemma {:induction false} BoundaryMeans(a: nat, b: Block)
    requires OnBoundary(a, b)
    ensures a % 8 == 0 && (a + 8) % 8 == 0 && (b.Large? ==> a % 4096 == 0)
  {
    MultipleOfEight(a, 4 * (a / 32));
  }

  /** The head of a free list is a word. */
  lemma {:induction false} HeadInHeap(mem: Words, heads: seq<nat>, h: Heap, i: nat)
    requires Represents(mem, heads, h) && i < 6
    ensures |heads| == 6 && heads[i] < 0x1_0000_0000_0000_0000
  {
    hide Headers, Disjoint, Sized;
    HeadTells(mem, heads, h, i);
    if h.free[i] != [] {
      FirstIsSmall(h, i);
      BlockInHeap(h, h.free[i][0]);
    }
  }

  lemma {:induction false} PayloadInHeap(mem: Words, heads: seq<nat>, h: Heap, a: nat, x: nat)
    requires Represents(mem, heads, h) && InPayload(h, a, x)
    ensures M.HEAP_START <= x < M.HEAP_END && x % 8 == 0
  {
    hide Headers, Stacks, Disjoint, Sorted, Sized;
    BlockInHeap(h, a);
  }

  lemma {:induction false} FewerLive(h: Heap, a: nat, mem: Words, mem': Words)
    requires SamePayload(h, mem, mem')
    ensures SamePayload(h.(live := h.live - {a}), mem, mem')
  {
    var g := h.(live := h.live - {a});
    forall b, x | b in g.live && InPayload(g, b, x) && x in mem
      ensures x in mem' && mem'[x] == mem[x]
    {
      assert InPayload(h, b, x);
    }
  }

  lemma {:induction false} OutsideKeepsPayload(h: Heap, mem: Words, a: nat)
    requires Disjoint(h, h.next) && a in h.blocks && h.blocks[a].Large?
    ensures SamePayload(h.(live := h.live - {a}), mem, Outside(mem, a, h.blocks[a].pages))
  {
    var g := h.(live := h.live - {a});
    forall b, x: nat | b in g.live && InPayload(g, b, x) && x in mem
      ensures !(a <= x < a + 4096 * h.blocks[a].pages)
    {
      assert b < a ==> b + Extent(h.blocks[b]) <= a;
      assert a < b ==> a + Extent(h.blocks[a]) <= b;
    }
  }

  /** What the contracts of the operations say about one stored word. */
  lemma {:induction false} StepRetains(h: Heap, mem: Words, op: Op, mem': Words, heads: seq<nat>)
    requires Represents(mem, heads, h) && Allowed(h, op)
    requires op.MallocOp? ==> SamePayload(h, mem, mem')
    requires op.FreeOp? ==> SamePayload(h.(live := h.live - {op.a}), mem, mem')
    requires op.StoreOp? ==> mem' == mem[op.x := op.w]
    ensures forall a, x :: Spares([op], a, x) ==> Retained(h, mem, Step(h, op), mem', a, x)
  {
    hide Headers, Stacks, Disjoint, Sorted, Sized, Malloc, Free;
    forall a, x | Spares([op], a, x)
      ensures Retained(h, mem, Step(h, op), mem', a, x)
    {
      assert op in [op];
      if a in h.live && InPayload(h, a, x) && x in mem {
        StepKeeps(h, op, a);
        if op.FreeOp? {
          assert InPayload(h.(live := h.live - {op.a}), a, x);
        }
      }
    }
  }

  lemma {:induction false} RetainedRefl(h: Heap, mem: Words)
    ensures forall a, x :: Retained(h, mem, h, mem, a, x)
  {
  }

  lemma {:induction false} RetainedThen(h: Heap, mem: Words, h1: Heap, mem1: Words, h2: Heap, mem2: Words, ops: seq<Op>, op: Op)
    requires forall a, x :: Spares(ops, a, x) ==> Retained(h, mem, h1, mem1, a, x)
    requires forall a, x :: Spares([op], a, x) ==> Retained(h1, mem1, h2, mem2, a, x)
    ensures forall a, x :: Spares(ops + [op], a, x) ==> Retained(h, mem, h2, mem2, a, x)
  {
    hide InPayload;
    forall a, x | Spares(ops + [op], a, x)
      ensures Retained(h, mem, h2, mem2, a, x)
    {
      assert op in ops + [op] && forall o :: o in ops ==> o in ops + [op];
      assert Spares(ops, a, x) && Spares([op], a, x);
    }
  }

  // ------------------------------------------------------------------
  // Words below the heap
  // ------------------------------------------------------------------

  lemma {:induction false} StackPages(stack: nat)
    requires stack % 4096 == 4088 && S.P4_SPAN <= stack / 4096 && stack + 40960 <= M.HEAP_START
    ensures S.Managed(stack / 4096) && S.Managed(stack / 4096 + 9) && 4088 <= stack
    ensures (stack - 4088) % 4096 == 0 && (stack - 4088) / 4096 == stack / 4096
  {
  }

  lemma {:induction false} BelowRepresents(mem: Words, heads: seq<nat>, h: Heap, a: nat, n: nat)
    requires Represents(mem, heads, h) && a + 4096 * n <= M.HEAP_START
    ensures Represents(Outside(mem, a, n), heads, h)
  {
    hide Sorted, Sized, Headers, Stacks;
    assert forall b :: b in h.blocks ==> M.HEAP_START <= b;
    SameHeadersKeep(mem, Outside(mem, a, n), heads, h);
  }

  lemma {:induction false} BelowStoreRepresents(mem: Words, heads: seq<nat>, h: Heap, x: nat, w: nat)
    requires Represents(mem, heads, h) && x < M.HEAP_START
    ensures Represents(mem[x := w], heads, h)
  {
    hide Sorted, Sized, Headers, Stacks;
    assert forall b :: b in h.blocks ==> M.HEAP_START <= b;
    SameHeadersKeep(mem, mem[x := w], heads, h);
  }

  /** Words below the heap are in no payload. */
  lemma {:induction false} BelowKeepsPayload(h: Heap, mem: Words, mem': Words)
    requires WellFormed(h) && forall x: nat :: M.HEAP_START <= x && x in mem ==> x in mem' && mem'[x] == mem[x]
    ensures SamePayload(h, mem, mem')
  {
    hide Sorted, Sized;
    forall a, x: nat | a in h.live && InPayload(h, a, x) && x in mem
      ensures x in mem' && mem'[x] == mem[x]
    {
      assert M.HEAP_START <= a;
    }
  }

  lemma {:induction false} DemandRangeMaps(s: S.Space, v: S.Page, n: nat)
    ensures forall w :: S.IsMapped(M.DemandRange(s, v, n), w) <==> S.IsMapped(s, w)
    decreases n
  {
    hide S.Demand, S.IsMapped;
    if n > 0 {
      DemandRangeMaps(s, v, n - 1);
      S.DemandPages(M.DemandRange(s, v, n - 1), v + n - 1);
    }
  }

  /**
    On fresh pages the touches of `kmalloc` go through exactly when `MMU_alloc_pages` could reserve each of the pages
    touched and there are as many frames left after it has taken those for new tables.
   */
  lemma {:induction false} MallocFrames(h: Heap, s: S.Space, size: Size)
    requires forall v :: h.next / 4096 <= v < h.next / 4096 + TouchedPages(size) ==> !S.IsMapped(s, v)
    ensures var d := Demanded(s, h.next, AskedPages(size));
            MallocBacked(h, s, size) <==>
            (Asks(h, size) && M.Grant(h.next, AskedPages(size)).0 != 0 ==>
               && TouchedPages(size) <= |d.free|
               && forall v :: h.next / 4096 <= v < h.next / 4096 + TouchedPages(size) ==> v in d.pages)
  {
    hide TouchRange, Asks, AskedPages, TouchedPages, M.DemandRange;
    var next' := M.Grant(h.next, AskedPages(size)).1;
    if h.next <= next' {
      DemandRangeMaps(s, h.next / 4096, (next' - h.next) / 4096);
    }
    TouchRangeExact(Demanded(s, h.next, AskedPages(size)), h.next / 4096, TouchedPages(size));
  }

  // ------------------------------------------------------------------
  // Frames an operation needs and gives back
  // ------------------------------------------------------------------

  /** No page from the next heap address on has been reserved. */
  ghost predicate FreshFrom(next: nat, s: S.Space) {
    forall v :: next / 4096 <= v && v in s.pages ==> M.HEAP_END / 4096 <= v
  }

  /** The page tables missing on the way to the pages asked for. */
  ghost function TablesLacking(s: S.Space, next: nat, n: nat): nat {
    S.Lack(s, S.Ways(M.Upwards(next / 4096, n)))
  }

  /** What demand allocation of `n` fresh pages leaves. */
  lemma {:induction false} FreshRange(s: S.Space, v: S.Page, n: nat)
    requires forall w :: v <= w < v + n ==> w !in s.pages
    ensures var d, lack := M.DemandRange(s, v, n), S.Lack(s, S.Ways(M.Upwards(v, n)));
            && (forall w :: w in d.pages ==> w in s.pages || v <= w < v + n)
            && (forall w :: S.IsMapped(d, w) <==> S.IsMapped(s, w))
            && (lack <= |s.free| ==> |d.free| == |s.free| - lack && forall w :: v <= w < v + n ==> w in d.pages)
            && (lack > |s.free| ==> d.free == [])
  {
    hide M.DemandRange, S.DemandEach, M.Upwards, S.Ways, S.Lack, S.IsMapped;
    M.DemandRangeEach(s, v, n);
    S.DemandEachExact(s, M.Upwards(v, n));
  }

  /** The pages `MMU_alloc_pages` demand-allocates when it grants the request. */
  lemma {:induction false} GrantedRange(next: nat, n: int)
    requires M.HEAP_START <= next <= M.HEAP_END && next % 4096 == 0 && M.Grant(next, n).0 != 0
    ensures 0 < n && M.Grant(next, n).1 == next + 4096 * n && (next + 4096 * n - next) / 4096 == n
    ensures next / 4096 + n <= M.HEAP_END / 4096 && (next + 4096 * n) / 4096 == next / 4096 + n
  {
  }

  /**
    So `kmalloc` finds the frames it needs if and only if there is one for every table missing on the way to the pages
    it asks for and one for every page it touches.
   */
  lemma {:induction false} MallocNeeds(h: Heap, s: S.Space, size: Size)
    requires M.HEAP_START <= h.next <= M.HEAP_END && h.next % 4096 == 0 && FreshFrom(h.next, s)
    ensures MallocBacked(h, s, size) <==>
            (Asks(h, size) && M.Grant(h.next, AskedPages(size)).0 != 0 && 0 < AskedPages(size) ==>
               TablesLacking(s, h.next, AskedPages(size)) + TouchedPages(size) <= |s.free|)
  {
    hide TouchRange, Asks, PoolFor, PagesFor, M.DemandRange, M.Upwards, S.Ways, S.Lack, S.IsMapped, M.Grant;
    var n := AskedPages(size);
    if Asks(h, size) && M.Grant(h.next, n).0 != 0 {
      GrantedRange(h.next, n);
      var v := h.next / 4096;
      assert forall w :: v <= w < v + n ==> w !in s.pages;
      FreshRange(s, v, n);
      FreshUnmapped(s, v, n);
      TouchRangeExact(Demanded(s, h.next, n), v, TouchedPages(size));
    }
  }

  lemma {:induction false} FreshUnmapped(s: S.Space, v: S.Page, n: nat)
    requires forall w :: v <= w < v + n ==> w !in s.pages
    ensures forall w :: v <= w < v + n ==> !S.IsMapped(s, w)
  {
  }

  lemma {:induction false} FaultRangeKeys(s: S.Space, v: S.Page, n: nat)
    ensures FaultRange(s, v, n).pages.Keys == s.pages.Keys
    decreases n
  {
    if n > 0 {
      FaultRangeKeys(s, v, n - 1);
      FaultKeys(FaultRange(s, v, n - 1), v + n - 1);
    }
  }

  lemma {:induction false} FaultKeys(s: S.Space, v: S.Page)
    ensures S.Fault(s, v).pages.Keys == s.pages.Keys
  {
  }

  lemma {:induction false} MallocNext(h: Heap, size: Size)
    requires |h.free| == 6
    ensures Malloc(h, size).0.next == if Asks(h, size) then M.Grant(h.next, AskedPages(size)).1 else h.next
  {
    hide Carve, PagesFor, M.Grant;
    var i := PoolFor(size);
    if 0 < size && i < 6 && h.free[i] == [] {
      var (base, next) := M.Grant(h.next, 4);
      if base != 0 {
        var _ := CarveExact(h.(next := next), i, base, 16384 / BlockSize(i));
      }
    }
  }

  /** All addresses `MMU_alloc_pages` passes over, granted or not. */
  lemma {:induction false} DemandedFresh(s: S.Space, next: nat, n: int)
    requires M.HEAP_START <= next <= M.HEAP_END && next % 4096 == 0 && FreshFrom(next, s)
    ensures FreshFrom(M.Grant(next, n).1, Demanded(s, next, n))
  {
    hide M.DemandRange, M.Upwards, S.Ways, S.Lack, S.IsMapped, M.Grant;
    PassedOver(next, n);
    FreshRange(s, next / 4096, (M.Grant(next, n).1 - next) / 4096);
  }

  lemma {:induction false} PassedOver(next: nat, n: int)
    requires M.HEAP_START <= next <= M.HEAP_END && next % 4096 == 0
    ensures var next' := M.Grant(next, n).1;
            next <= next' && next / 4096 + (next' - next) / 4096 == next' / 4096 <= M.HEAP_END / 4096
  {
    var next' := M.Grant(next, n).1;
    assert next' % 4096 == 0 && next == 4096 * (next / 4096) && next' == 4096 * (next' / 4096);
    assert next' - next == 4096 * (next' / 4096 - next / 4096);
  }

  /** Every operation leaves the pages from the next heap address on unreserved, so the condition above is there each time. */
  lemma {:induction false} FreshStays(h: Heap, s: S.Space, op: Op)
    requires WellFormed(h) && Allowed(h, op) && FreshFrom(h.next, s)
    ensures FreshFrom(Step(h, op).next, SpaceAfter(h, s, op))
  {
    hide Disjoint, Sorted, Sized, Malloc, FaultRange, Demanded, S.ReleaseRange, S.Fault, M.Grant, Asks, AskedPages, TouchedPages;
    match op
    case MallocOp(size) =>
      MallocNext(h, size);
      var d := Demanded(s, h.next, AskedPages(size));
      DemandedFresh(s, h.next, AskedPages(size));
      FaultRangeKeys(d, h.next / 4096, TouchedPages(size));
      assert forall v :: v in FaultRange(d, h.next / 4096, TouchedPages(size)).pages ==> v in d.pages.Keys;
    case FreeOp(a) =>
      forall v | v in SpaceAfter(h, s, op).pages
        ensures v in s.pages
      {
        ReleasedKeys(s, a / 4096, if h.blocks[a].Large? then h.blocks[a].pages else 0, v);
      }
    case StoreOp(_, x, _) =>
      FaultKeys(s, x / 4096);
      assert forall v :: v in SpaceAfter(h, s, op).pages ==> v in s.pages.Keys;
  }

  lemma {:induction false} ReleasedKeys(s: S.Space, v: S.Page, n: nat, w: S.Page)
    ensures w in S.ReleaseRange(s, v, n).pages ==> w in s.pages
    decreases n
  {
    if n > 0 {
      ReleasedKeys(s, v, n - 1, w);
    }
  }

  /** `kfree` unmaps the pages of a large block, and nothing else; the blocks of a pool keep their pages. */
  lemma {:induction false} FreeReleasesPages(h: Heap, s: S.Space, a: nat, w: S.Page)
    requires WellFormed(h) && a in h.blocks
    ensures S.IsMapped(SpaceAfter(h, s, FreeOp(a)), w) <==>
            S.IsMapped(s, w) && !(h.blocks[a].Large? && a <= 4096 * w < a + Extent(h.blocks[a]))
  {
    hide Sorted, Sized, S.ReleaseRange, S.IsMapped;
    if h.blocks[a].Large? {
      var n := h.blocks[a].pages;
      assert a % 4096 == 0 && a == 4096 * (a / 4096);
      S.ReleaseRangeUnmaps(s, a / 4096, n, w);
      assert a <= 4096 * w < a + 4096 * n <==> a / 4096 <= w < a / 4096 + n;
    }
  }

  // ------------------------------------------------------------------
  // Which page a block of a pool is in
  // ------------------------------------------------------------------

  /** The pages the first `k` blocks of a refill have touched. */
  function PagesFilled(k: nat, size: nat): nat {
    (k * size + 4095) / 4096
  }

  lemma {:induction false} NoTouches(s: S.Space, v: S.Page)
    ensures TouchRange(s, v, 0) && FaultRange(s, v, 0) == s
    ensures forall size: nat :: PagesFilled(0, size) == 0
  {
  }

  lemma {:induction false} AllFilled(size: nat)
    requires size in {32, 64, 128, 512, 1024, 2048}
    ensures PagesFilled(16384 / size, size) == 4
  {
  }

  /** Block `k` starts a new page, or lies in the last page touched. */
  lemma {:induction false} BlockPage(k: nat, size: nat)
    requires size in {32, 64, 128, 512, 1024, 2048} && k < 16384 / size
    ensures var n := PagesFilled(k, size);
            && n <= 4 && PagesFilled(k + 1, size) <= 4
            && (k * size / 4096 == n ==> PagesFilled(k + 1, size) == n + 1)
            && (k * size / 4096 != n ==> 0 < n && k * size / 4096 == n - 1 && PagesFilled(k + 1, size) == n)
  {
    if size == 32 {
      BlockPage32(k);
    } else if size == 64 {
      BlockPage64(k);
    } else if size == 128 {
      BlockPage128(k);
    } else if size == 512 {
      assert k * 512 / 4096 == k / 8 && (k * 512 + 4095) / 4096 == (k + 7) / 8;
    } else if size == 1024 {
      assert k * 1024 / 4096 == k / 4 && (k * 1024 + 4095) / 4096 == (k + 3) / 4;
    } else {
      assert k * 2048 / 4096 == k / 2 && (k * 2048 + 4095) / 4096 == (k + 1) / 2;
    }
  }

  lemma {:induction false} BlockPage32(k: nat)
    requires k < 512
    ensures k * 32 / 4096 == k / 128 && (k * 32 + 4095) / 4096 == (k + 127) / 128 && ((k + 1) * 32 + 4095) / 4096 == (k + 128) / 128
  {
  }

  lemma {:induction false} BlockPage64(k: nat)
    requires k < 256
    ensures k * 64 / 4096 == k / 64 && (k * 64 + 4095) / 4096 == (k + 63) / 64 && ((k + 1) * 64 + 4095) / 4096 == (k + 64) / 64
  {
  }

  lemma {:induction false} BlockPage128(k: nat)
    requires k < 128
    ensures k * 128 / 4096 == k / 32 && (k * 128 + 4095) / 4096 == (k + 31) / 32 && ((k + 1) * 128 + 4095) / 4096 == (k + 32) / 32
  {
  }

  /** What the touch of the next header is to the touches of the pages. */
  lemma {:induction false} NextTouch(s: S.Space, first: nat, k: nat, size: nat)
    requires size in {32, 64, 128, 512, 1024, 2048} && k < 16384 / size && first % 4096 == 0
    requires TouchRange(s, first / 4096, PagesFilled(k, size))
    ensures var v, t := first / 4096, FaultRange(s, first / 4096, PagesFilled(k, size));
            var page := (first + k * size) / 4096;
            && (CanMap(t, page) ==>
                  TouchRange(s, v, PagesFilled(k + 1, size)) && S.Fault(t, page) == FaultRange(s, v, PagesFilled(k + 1, size)))
            && (!CanMap(t, page) ==> !TouchRange(s, v, 4))
  {
    hide PagesFilled;
    var v, n := first / 4096, PagesFilled(k, size);
    var t, page := FaultRange(s, v, n), (first + k * size) / 4096;
    BlockPage(k, size);
    PagePlus(first, k * size);
    if page == v + n {
      if !CanMap(t, page) {
        RangeStops(s, v, n + 1, 4);
      }
    } else {
      TouchedRange(s, v, n, page);
      TouchMaps(t, page);
    }
  }

  lemma {:induction false} PagePlus(first: nat, d: nat)
    requires first % 4096 == 0
    ensures (first + d) / 4096 == first / 4096 + d / 4096
  {
  }

  /** A header lies in one page. */
  lemma {:induction false} SamePage(a: nat)
    requires a % 32 == 0
    ensures (a + 8) / 4096 == a / 4096
  {
    var k := a / 32;
    assert a == 32 * k;
  }

  lemma {:induction false} MappedCanMap(s: S.Space, v: S.Page)
    ensures S.IsMapped(s, v) ==> CanMap(s, v)
  {
  }

  lemma {:induction false} OneTouch(s: S.Space, v: S.Page)
    ensures (TouchRange(s, v, 1) <==> CanMap(s, v)) && FaultRange(s, v, 1) == S.Fault(s, v)
  {
    assert FaultRange(s, v, 0) == s && TouchRange(s, v, 0);
  }

  lemma {:induction false} LastHeader(mem: Words, h: Heap, i: nat)
    requires Headers(mem, h) && Sorted(h) && i < 6 && |h.free| == 6 && h.free[i] != []
    ensures h.free[i][|h.free[i]| - 1] + 8 in mem
  {
    hide Sorted;
    LastIsSmall(h, i);
    var last := h.free[i][|h.free[i]| - 1];
    assert Header(mem, last, h.blocks[last]);
  }
}
