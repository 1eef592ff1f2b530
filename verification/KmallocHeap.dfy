/**
  What src/kmalloc.c keeps track of: blocks carved from pages into six size classes, blocks of
  whole pages, which of them are live, and a stack of free blocks for each class.
 */
module KmallocHeap {
  import opened Basics
  import M = Mmu

  /** A block belongs to a pool, or was allocated as a number of pages. */
  datatype Block = Small(pool: nat) | Large(pages: nat)

  /** `size_t`. */
  type Size = n: nat | n < 0x1_0000_0000_0000_0000

  datatype Heap = Heap(
    next: nat,                    // the next heap address MMU_alloc_pages will hand out
    blocks: map<nat, Block>,      // every block there is, by the address of its header
    live: map<nat, Size>,         // the blocks clients hold, with the size asked for
    free: seq<seq<nat>>)          // the free blocks of each pool, the next to be used first

  function BlockSize(pool: nat): (n: nat)
    ensures n in {32, 64, 128, 512, 1024, 2048}
  {
    if pool == 0 then 32 else if pool == 1 then 64 else if pool == 2 then 128
    else if pool == 3 then 512 else if pool == 4 then 1024 else 2048
  }

  function Extent(b: Block): nat {
    match b
    case Small(pool) => BlockSize(pool)
    case Large(pages) => 4096 * pages
  }

  // ------------------------------------------------------------------
  // Operations
  // ------------------------------------------------------------------

  /** `size + sizeof(struct KmallocBlockHeader)`, in 64 bits. */
  function Gross(size: Size): nat {
    (size + 16) % 0x1_0000_0000_0000_0000
  }

  /** The loop of `kmalloc`: the first pool whose blocks hold that many bytes, 6 when none does. */
  function PoolFor(size: Size): (i: nat)
    ensures i <= 6
    ensures i < 6 ==> Gross(size) <= BlockSize(i)
    ensures forall j :: 0 <= j < i ==> BlockSize(j) < Gross(size)
  {
    var n := Gross(size);
    if n <= 32 then 0 else if n <= 64 then 1 else if n <= 128 then 2
    else if n <= 512 then 3 else if n <= 1024 then 4 else if n <= 2048 then 5 else 6
  }

  /** Conversion to a 32-bit `int`. */
  function ToInt(n: int): int {
    var m := n % 0x1_0000_0000;
    if m < 0x8000_0000 then m else m - 0x1_0000_0000
  }

  /** `num_pages` for a large request, a 32-bit `int`: the header is not counted. */
  function PagesFor(size: Size): int {
    ToInt(size / 4096 + if size % 4096 != 0 then 1 else 0)
  }

  function AddFree(h: Heap, i: nat, a: nat): Heap
    requires i < |h.free|
  {
    h.(blocks := h.blocks[a := Small(i)], free := h.free[i := h.free[i] + [a]])
  }

  /** The loop of `kmalloc_increase_pool`: `n` blocks of pool `i` from address `a` on. */
  function Carve(h: Heap, i: nat, a: nat, n: nat): (r: Heap)
    requires i < |h.free|
    ensures |r.free| == |h.free|
    decreases n
  {
    if n == 0 then h else Carve(AddFree(h, i, a), i, a + BlockSize(i), n - 1)
  }

  /** `kmalloc_increase_pool`, when the pool is empty. */
  function Refill(h: Heap, i: nat): (r: Heap)
    requires i < |h.free|
    ensures |r.free| == |h.free|
  {
    var (base, next) := M.Grant(h.next, 4);
    if base == 0 then h.(next := next) else Carve(h.(next := next), i, base, 16384 / BlockSize(i))
  }

  /** Hand out the first free block of pool `i`, if there is one. */
  function TakeSmall(h: Heap, i: nat, size: Size): (Heap, nat)
    requires i < |h.free|
  {
    if h.free[i] == [] then (h, 0)
    else
      var a := h.free[i][0];
      (h.(live := h.live[a := size], free := h.free[i := h.free[i][1..]]), a + 16)
  }

  function TakeLarge(h: Heap, size: Size): (Heap, nat) {
    var (a, next) := M.Grant(h.next, PagesFor(size));
    if a == 0 then (h.(next := next), 0)
    else (h.(next := next, blocks := h.blocks[a := Large(PagesFor(size))], live := h.live[a := size]), a + 16)
  }

  /** `kmalloc`: the new heap and the address returned, 0 for NULL. */
  function Malloc(h: Heap, size: Size): (Heap, nat)
    requires |h.free| == 6
  {
    var i := PoolFor(size);
    if size == 0 then (h, 0)
    else if i == 6 then TakeLarge(h, size)
    else TakeSmall(if h.free[i] == [] then Refill(h, i) else h, i, size)
  }

  /** `kfree` of the block at `a`. */
  function Free(h: Heap, a: nat): Heap
    requires a in h.blocks && (h.blocks[a].Small? ==> h.blocks[a].pool < |h.free|)
  {
    match h.blocks[a]
    case Small(i) => h.(live := h.live - {a}, free := h.free[i := [a] + h.free[i]])
    case Large(_) => h.(live := h.live - {a}, blocks := h.blocks - {a})
  }

  // ------------------------------------------------------------------
  // The invariant
  // ------------------------------------------------------------------

  /** Headers lie on multiples of 32, blocks of pages on page boundaries. */
  predicate OnBoundary(a: nat, b: Block) {
    a % 32 == 0 && (b.Large? ==> a % 4096 == 0)
  }

  /** Every block lies on its boundary between the start of the heap and `top`, and no two blocks overlap. */
  ghost predicate Disjoint(h: Heap, top: nat) {
    && (forall a :: a in h.blocks ==>
          && M.HEAP_START <= a && 32 <= Extent(h.blocks[a]) && a + Extent(h.blocks[a]) <= top
          && OnBoundary(a, h.blocks[a]))
    && (forall a, b :: a in h.blocks && b in h.blocks && a < b ==> a + Extent(h.blocks[a]) <= b)
  }

  /** The stack of a pool holds free blocks of that pool, each once. */
  ghost predicate Stack(h: Heap, i: nat)
    requires i < |h.free|
  {
    NoDup(h.free[i]) && forall a :: a in h.free[i] ==> a in h.blocks && h.blocks[a] == Small(i) && a !in h.live
  }

  /** A block is live, or is in the stack of its own pool exactly once. */
  ghost predicate Sorted(h: Heap) {
    && |h.free| == 6
    && (forall i :: 0 <= i < 6 ==> Stack(h, i))
    && (forall a :: a in h.blocks && h.blocks[a].Small? ==>
          h.blocks[a].pool < 6 && (a in h.live || a in h.free[h.blocks[a].pool]))
    && (forall a :: a in h.blocks && h.blocks[a].Large? ==> 0 < h.blocks[a].pages && a in h.live)
    && (forall a :: a in h.live ==> a in h.blocks)
  }

  /** A live block is of the kind its size asks for. */
  ghost predicate Sized(h: Heap) {
    forall a :: a in h.live && a in h.blocks ==> 0 < h.live[a] && KindFor(h.live[a], h.blocks[a])
  }

  predicate KindFor(size: Size, b: Block) {
    match b
    case Small(i) => i < 6 && PoolFor(size) == i
    case Large(pages) => PoolFor(size) == 6 && 0 < pages == PagesFor(size)
  }

  ghost predicate WellFormed(h: Heap) {
    M.HEAP_START <= h.next <= M.HEAP_END && h.next % 4096 == 0 && Disjoint(h, h.next) && Sorted(h) && Sized(h)
  }

  lemma {:induction false} AddFreeDisjoint(h: Heap, i: nat, a: nat)
    requires Disjoint(h, a) && |h.free| == 6 && i < 6 && M.HEAP_START <= a && a % 32 == 0
    ensures a !in h.blocks && Disjoint(AddFree(h, i, a), a + BlockSize(i))
    ensures (a + BlockSize(i)) % 32 == 0
  {
  }

  lemma {:induction false} AddFreeSorted(h: Heap, i: nat, a: nat)
    requires Sorted(h) && i < 6 && a !in h.blocks
    ensures Sorted(AddFree(h, i, a))
  {
    var h' := AddFree(h, i, a);
    forall j | 0 <= j < 6
      ensures Stack(h', j)
    {
      assert Stack(h, j);
    }
  }

  lemma {:induction false} CarveWellFormed(h: Heap, i: nat, a: nat, n: nat)
    requires Disjoint(h, a) && Sorted(h) && Sized(h) && i < 6 && M.HEAP_START <= a && a % 32 == 0
    ensures Disjoint(Carve(h, i, a, n), a + n * BlockSize(i)) && Sorted(Carve(h, i, a, n)) && Sized(Carve(h, i, a, n))
    ensures Carve(h, i, a, n).next == h.next && Carve(h, i, a, n).live == h.live
    ensures |h.free[i]| + n == |Carve(h, i, a, n).free[i]|
    decreases n
  {
    hide Disjoint, Sorted, Sized;
    if n > 0 {
      SortedShape(h);
      AddFreeDisjoint(h, i, a);
      AddFreeSorted(h, i, a);
      AddFreeSized(h, i, a);
      CarveWellFormed(AddFree(h, i, a), i, a + BlockSize(i), n - 1);
      assert a + BlockSize(i) + (n - 1) * BlockSize(i) == a + n * BlockSize(i);
    }
  }

  lemma {:induction false} SortedShape(h: Heap)
    requires Sorted(h)
    ensures |h.free| == 6
  {
  }

  lemma {:induction false} AddFreeSized(h: Heap, i: nat, a: nat)
    requires Sized(h) && Sorted(h) && i < 6 && a !in h.blocks
    ensures Sized(AddFree(h, i, a))
  {
  }

  lemma {:induction false} RefillWellFormed(h: Heap, i: nat)
    requires WellFormed(h) && i < 6 && h.free[i] == []
    ensures WellFormed(Refill(h, i)) && Refill(h, i).live == h.live
    ensures M.Grant(h.next, 4).0 != 0 <==> Refill(h, i).free[i] != []
  {
    hide Disjoint, Sorted, Sized;
    SortedShape(h);
    PageOnBoundary(h.next, Small(i));
    var (base, next) := M.Grant(h.next, 4);
    var g := h.(next := next);
    GrowNext(h, next);
    if base != 0 {
      CarveWellFormed(g, i, base, 16384 / BlockSize(i));
      assert 16384 / BlockSize(i) * BlockSize(i) == 16384;
    }
  }

  lemma {:induction false} SameStacks(h: Heap, g: Heap)
    requires Sorted(h) && g.blocks == h.blocks && g.live == h.live && g.free == h.free
    ensures Sorted(g)
  {
    forall j | 0 <= j < 6
      ensures Stack(g, j)
    {
      assert Stack(h, j);
    }
  }

  lemma {:induction false} HigherTop(h: Heap, g: Heap, top: nat, top': nat)
    requires Disjoint(h, top) && top <= top' && g.blocks == h.blocks
    ensures Disjoint(g, top')
  {
  }

  /** None of the three parts looks at `next`. */
  lemma {:induction false} GrowNext(h: Heap, next: nat)
    requires Disjoint(h, h.next) && Sorted(h) && Sized(h) && h.next <= next
    ensures var g := h.(next := next); Disjoint(g, h.next) && Disjoint(g, next) && Sorted(g) && Sized(g)
  {
    hide Disjoint, Sorted, PoolFor, PagesFor;
    var g := h.(next := next);
    SameStacks(h, g);
    HigherTop(h, g, h.next, h.next);
    HigherTop(h, g, h.next, next);
  }

  lemma {:induction false} SameBlocksDisjoint(h: Heap, h': Heap, top: nat)
    requires Disjoint(h, top) && h'.blocks.Items <= h.blocks.Items
    ensures Disjoint(h', top)
  {
    assert forall a :: a in h'.blocks ==> (a, h'.blocks[a]) in h'.blocks.Items;
    assert forall a :: a in h'.blocks ==> a in h.blocks && h'.blocks[a] == h.blocks[a];
  }

  lemma {:induction false} TakeSmallSorted(h: Heap, i: nat, size: Size)
    requires Sorted(h) && i < 6
    ensures Sorted(TakeSmall(h, i, size).0)
  {
    var h', s := TakeSmall(h, i, size).0, h.free[i];
    if s != [] {
      assert Stack(h, i);
      assert s == [s[0]] + s[1..];
      assert s[0] in h.free[i];
      assert forall b :: b in s[1..] <==> b in s && b != s[0];
      forall j | 0 <= j < 6
        ensures Stack(h', j)
      {
        assert Stack(h, j);
      }
    }
  }

  lemma {:induction false} TakeSmallSized(h: Heap, i: nat, size: Size)
    requires Sized(h) && Sorted(h) && i < 6 && PoolFor(size) == i && 0 < size
    ensures Sized(TakeSmall(h, i, size).0)
  {
    if h.free[i] != [] {
      assert Stack(h, i);
      assert h.free[i][0] in h.free[i];
    }
  }

  lemma {:induction false} TakeSmallWellFormed(h: Heap, i: nat, size: Size)
    requires WellFormed(h) && i < 6 && |h.free| == 6 && PoolFor(size) == i && 0 < size
    ensures WellFormed(TakeSmall(h, i, size).0)
  {
    hide Disjoint, Sorted, Sized, PoolFor;
    SameBlocksDisjoint(h, TakeSmall(h, i, size).0, h.next);
    TakeSmallSorted(h, i, size);
    TakeSmallSized(h, i, size);
  }

  lemma {:induction false} AddLargeDisjoint(h: Heap, h': Heap, a: nat, pages: nat)
    requires Disjoint(h, a) && M.HEAP_START <= a && a % 4096 == 0 && 0 < pages && h'.blocks == h.blocks[a := Large(pages)]
    ensures a !in h.blocks && Disjoint(h', a + 4096 * pages)
  {
    hide OnBoundary;
    PageOnBoundary(a, Large(pages));
  }

  lemma {:induction false} PageOnBoundary(a: nat, b: Block)
    requires a % 4096 == 0
    ensures OnBoundary(a, b) && a % 32 == 0
  {
  }

  lemma {:induction false} AddLargeSorted(h: Heap, h': Heap, a: nat, pages: nat, size: Size)
    requires Sorted(h) && a !in h.blocks && 0 < pages
    requires h'.blocks == h.blocks[a := Large(pages)] && h'.live == h.live[a := size] && h'.free == h.free
    ensures Sorted(h')
  {
    forall j | 0 <= j < 6
      ensures Stack(h', j)
    {
      assert Stack(h, j);
    }
  }

  lemma {:induction false} AddLargeSized(h: Heap, h': Heap, a: nat, size: Size)
    requires Sized(h) && Sorted(h) && a !in h.blocks && 0 < size && PoolFor(size) == 6 && 0 < PagesFor(size)
    requires h'.blocks == h.blocks[a := Large(PagesFor(size))] && h'.live == h.live[a := size]
    ensures Sized(h')
  {
    hide PoolFor, PagesFor;
  }

  lemma {:induction false} TakeLargeWellFormed(h: Heap, size: Size)
    requires WellFormed(h) && PoolFor(size) == 6 && 0 < size
    ensures WellFormed(TakeLarge(h, size).0)
  {
    hide Disjoint, Sorted, Sized, PoolFor;
    var (a, next) := M.Grant(h.next, PagesFor(size));
    var h' := TakeLarge(h, size).0;
    GrowNext(h, next);
    if a != 0 {
      AddLargeDisjoint(h, h', a, PagesFor(size));
      AddLargeSorted(h, h', a, PagesFor(size), size);
      AddLargeSized(h, h', a, size);
    }
  }

  lemma {:induction false} MallocWellFormed(h: Heap, size: Size)
    requires WellFormed(h)
    ensures WellFormed(Malloc(h, size).0)
  {
    hide Disjoint, Sized, Sorted;
    SortedShape(h);
    var i := PoolFor(size);
    if size == 0 {
    } else if i == 6 {
      TakeLargeWellFormed(h, size);
    } else if h.free[i] == [] {
      RefillWellFormed(h, i);
      TakeSmallWellFormed(Refill(h, i), i, size);
    } else {
      TakeSmallWellFormed(h, i, size);
    }
  }

  lemma {:induction false} LiveBlock(h: Heap, a: nat)
    requires Sorted(h) && a in h.live
    ensures a in h.blocks && |h.free| == 6 && (h.blocks[a].Small? ==> h.blocks[a].pool < 6)
    ensures h.blocks[a].Small? ==> a !in h.free[h.blocks[a].pool]
  {
    if h.blocks[a].Small? {
      assert Stack(h, h.blocks[a].pool);
    }
  }

  lemma {:induction false} FreeSorted(h: Heap, a: nat)
    requires Sorted(h) && a in h.live && a in h.blocks && (h.blocks[a].Small? ==> h.blocks[a].pool < 6)
    ensures Sorted(Free(h, a))
  {
    LiveBlock(h, a);
    var h' := Free(h, a);
    if h.blocks[a].Small? {
      assert forall b :: b in [a] + h.free[h.blocks[a].pool] <==> b == a || b in h.free[h.blocks[a].pool];
    }
    forall j | 0 <= j < 6
      ensures Stack(h', j)
    {
      assert Stack(h, j);
    }
  }

  lemma {:induction false} FreeSized(h: Heap, a: nat)
    requires Sized(h) && a in h.live && a in h.blocks && (h.blocks[a].Small? ==> h.blocks[a].pool < |h.free|)
    ensures Sized(Free(h, a))
  {
    hide PoolFor, PagesFor;
  }

  lemma {:induction false} FreeWellFormed(h: Heap, a: nat)
    requires WellFormed(h) && a in h.live && a in h.blocks && (h.blocks[a].Small? ==> h.blocks[a].pool < |h.free|)
    ensures WellFormed(Free(h, a))
  {
    hide Disjoint, Sorted, Sized;
    LiveBlock(h, a);
    SameBlocksDisjoint(h, Free(h, a), h.next);
    FreeSorted(h, a);
    FreeSized(h, a);
  }

  // ------------------------------------------------------------------
  // What a client gets
  // ------------------------------------------------------------------

  const POOL_SIZES: set<nat> := {32, 64, 128, 512, 1024, 2048}

  /** The smallest block of a pool that holds `n` bytes. */
  ghost predicate Smallest(n: nat, extent: nat) {
    extent in POOL_SIZES && n <= extent && forall k :: k in POOL_SIZES && n <= k ==> extent <= k
  }

  lemma {:induction false} SmallestBlock(size: Size)
    ensures PoolFor(size) < 6 <==> Gross(size) <= 2048
    ensures PoolFor(size) < 6 ==> Smallest(Gross(size), BlockSize(PoolFor(size)))
  {
  }

  /** `n` blocks of `size` bytes, one behind the other from `a` on. */
  ghost predicate Row(blocks: seq<nat>, a: nat, size: nat) {
    forall k :: 0 <= k < |blocks| ==> blocks[k] == a + k * size
  }

  lemma {:induction false} RowCons(rest: seq<nat>, a: nat, size: nat)
    requires Row(rest, a + size, size)
    ensures Row([a] + rest, a, size)
  {
    var row := [a] + rest;
    forall k | 0 <= k < |row|
      ensures row[k] == a + k * size
    {
      if k > 0 {
        assert row[k] == rest[k - 1] == a + size + (k - 1) * size;
      }
    }
  }

  /** `added` are new blocks of pool `i`, free and behind the free ones there were; nothing else is different. */
  ghost predicate Added(h: Heap, i: nat, added: seq<nat>, r: Heap)
    requires i < |h.free|
  {
    && r.next == h.next && r.live == h.live && r.free == h.free[i := h.free[i] + added]
    && (forall b :: b in r.blocks <==> b in h.blocks || b in added)
    && (forall b :: b in r.blocks ==> r.blocks[b] == if b in added then Small(i) else h.blocks[b])
  }

  lemma {:induction false} CarveExact(h: Heap, i: nat, a: nat, n: nat) returns (added: seq<nat>)
    requires i < |h.free|
    ensures |added| == n && Row(added, a, BlockSize(i)) && Added(h, i, added, Carve(h, i, a, n))
    decreases n
  {
    hide BlockSize, Row;
    if n == 0 {
      added := [];
      assert h.free[i] + [] == h.free[i] && Row(added, a, BlockSize(i)) by {
        EmptyRow(a, BlockSize(i));
      }
    } else {
      var g := AddFree(h, i, a);
      var rest := CarveExact(g, i, a + BlockSize(i), n - 1);
      RowCons(rest, a, BlockSize(i));
      added := [a] + rest;
      assert g.free[i] + rest == h.free[i] + added;
    }
  }

  lemma {:induction false} EmptyRow(a: nat, size: nat)
    ensures Row([], a, size)
  {
  }

  /** A pool without free blocks gets four pages, cut into blocks without a gap; nothing when there are no four pages left. */
  lemma {:induction false} RefillExact(h: Heap, i: nat) returns (added: seq<nat>)
    requires i < |h.free| && h.free[i] == [] && 0 < h.next
    ensures added == [] <==> M.HEAP_END < h.next + 16384
    ensures Row(added, h.next, BlockSize(i)) && (added != [] ==> |added| * BlockSize(i) == 16384)
    ensures Added(h.(next := if added == [] then M.HEAP_END else h.next + 16384), i, added, Refill(h, i))
  {
    hide Carve;
    var (base, next) := M.Grant(h.next, 4);
    if base == 0 {
      added := [];
      assert h.free[i] + added == h.free[i];
    } else {
      added := CarveExact(h.(next := next), i, base, 16384 / BlockSize(i));
    }
  }

  /** Nothing was asked for, or there is neither a free block of the right size nor room for new pages in the heap. */
  predicate NoBlock(h: Heap, size: Size)
    requires |h.free| == 6
  {
    || size == 0
    || (if Gross(size) <= 2048 then h.free[PoolFor(size)] == [] && M.HEAP_END < h.next + 16384
        else PagesFor(size) <= 0 || M.HEAP_END < h.next + 4096 * PagesFor(size))
  }

  /**
    The client was given the block 16 bytes below `p`: one that nobody held, the smallest that holds header and payload
    or as many pages as were counted; the first free one of its pool, or at the next heap address if it is new.
   */
  ghost predicate Given(h: Heap, size: Size, h': Heap, p: nat)
    requires |h.free| == 6
  {
    && 16 <= p && p - 16 !in h.live && p - 16 in h'.blocks && h'.live == h.live[p - 16 := size]
    && (if Gross(size) <= 2048 then h'.blocks[p - 16].Small? && Smallest(Gross(size), Extent(h'.blocks[p - 16]))
        else h'.blocks[p - 16].Large? && h'.blocks[p - 16].pages == PagesFor(size))
    && (if p - 16 in h.blocks then PoolFor(size) < 6 && h.free[PoolFor(size)] != [] && p - 16 == h.free[PoolFor(size)][0]
        else p - 16 == h.next < h'.next)
  }

  lemma {:induction false} TakeSmallGives(h: Heap, i: nat, size: Size)
    requires Sorted(h) && |h.free| == 6 && PoolFor(size) == i < 6 && h.free[i] != []
    ensures var (h', p) := TakeSmall(h, i, size);
            && p == h.free[i][0] + 16 && p - 16 !in h.live && p - 16 in h.blocks && h'.blocks == h.blocks
            && h'.live == h.live[p - 16 := size] && h'.next == h.next && h.blocks[p - 16] == Small(i)
  {
    assert Stack(h, i) && h.free[i][0] in h.free[i];
  }

  /** A block below `next` is where its pool has it, so a block at `next` is new. */
  lemma {:induction false} NothingAtNext(h: Heap)
    requires Disjoint(h, h.next)
    ensures h.next !in h.blocks
  {
  }

  /** `kmalloc` on every heap and for every size: exactly when it returns NULL, and what it returns otherwise. */
  lemma {:induction false} MallocResult(h: Heap, size: Size)
    requires WellFormed(h) && |h.free| == 6
    ensures var (h', p) := Malloc(h, size);
            && (p == 0 <==> NoBlock(h, size))
            && (p == 0 ==> h'.blocks == h.blocks && h'.live == h.live && h'.free == h.free)
            && (p != 0 ==> Given(h, size, h', p))
  {
    hide Disjoint, Sorted, Sized, PoolFor, PagesFor, Gross, Carve, Smallest, Refill;
    var i := PoolFor(size);
    SmallestBlock(size);
    NothingAtNext(h);
    if size == 0 {
    } else if i == 6 {
      LiveAreBlocks(h);
    } else if h.free[i] == [] {
      var added := RefillExact(h, i);
      RefillWellFormed(h, i);
      if added != [] {
        TakeSmallGives(Refill(h, i), i, size);
      } else {
        assert h.free[i] + [] == h.free[i];
      }
    } else {
      TakeSmallGives(h, i, size);
    }
  }

  lemma {:induction false} LiveAreBlocks(h: Heap)
    requires Sorted(h)
    ensures forall a :: a in h.live ==> a in h.blocks
  {
  }

  /** `kfree`: nobody holds the block any more, others hold what they held; the next client of that size gets it. */
  lemma {:induction false} FreeResult(h: Heap, a: nat, size: Size)
    requires WellFormed(h) && |h.free| == 6 && a in h.live && a in h.blocks && (h.blocks[a].Small? ==> h.blocks[a].pool < 6)
    ensures var h' := Free(h, a);
            && h'.live == h.live - {a} && h'.next == h.next && |h'.free| == 6
            && (h.blocks[a].Large? ==> h'.blocks == h.blocks - {a} && h'.free == h.free)
            && (h.blocks[a].Small? ==> h'.blocks == h.blocks)
            && (h.blocks[a].Small? && 0 < size && Smallest(Gross(size), Extent(h.blocks[a])) ==> Malloc(h', size).1 == a + 16)
  {
    hide Disjoint, Sorted, Sized, Gross, Refill;
    SmallestBlock(size);
    if h.blocks[a].Small? && Smallest(Gross(size), Extent(h.blocks[a])) {
      SmallestPool(size, h.blocks[a].pool);
    }
  }

  lemma {:induction false} SmallestPool(size: Size, i: nat)
    requires i < 6 && Smallest(Gross(size), BlockSize(i))
    ensures PoolFor(size) == i
  {
    SmallestBlock(size);
  }

  /** Freeing what was just allocated gives back the heap there was, with the blocks carved for it behind the free ones. */
  lemma {:induction false} FreeUndoesMalloc(h: Heap, size: Size)
    requires WellFormed(h) && |h.free| == 6 && !NoBlock(h, size)
    ensures var (h', p) := Malloc(h, size);
            && 16 <= p && p - 16 in h'.blocks && (h'.blocks[p - 16].Small? ==> h'.blocks[p - 16].pool < |h'.free|)
            && var g := Free(h', p - 16);
               && g.live == h.live && |g.free| == 6
               && (Gross(size) > 2048 ==> g == h.(next := h'.next))
               && (Gross(size) <= 2048 && h.free[PoolFor(size)] != [] ==> g == h)
               && (Gross(size) <= 2048 && h.free[PoolFor(size)] == [] ==> g == Refill(h, PoolFor(size)))
  {
    hide Disjoint, Sorted, Sized, PoolFor, PagesFor, Gross, Carve, Smallest, Refill;
    var i := PoolFor(size);
    SmallestBlock(size);
    NothingAtNext(h);
    MallocResult(h, size);
    if i == 6 {
      LiveAreBlocks(h);
      var g := Free(Malloc(h, size).0, h.next);
      assert g.blocks == h.blocks && g.live == h.live;
    } else {
      var r := if h.free[i] == [] then Refill(h, i) else h;
      if h.free[i] == [] {
        RefillWellFormed(h, i);
      }
      TakeSmallUndone(r, i, size);
    }
  }

  lemma {:induction false} TakeSmallUndone(h: Heap, i: nat, size: Size)
    requires Sorted(h) && |h.free| == 6 && PoolFor(size) == i < 6 && h.free[i] != []
    ensures TakeSmall(h, i, size).1 >= 16
    ensures var (h', p) := TakeSmall(h, i, size); p - 16 in h'.blocks && h'.blocks[p - 16] == Small(i) && |h'.free| == 6 && Free(h', p - 16) == h
  {
    hide Sorted;
    TakeSmallGives(h, i, size);
    var (h', p) := TakeSmall(h, i, size);
    var g := Free(h', p - 16);
    assert [h.free[i][0]] + h.free[i][1..] == h.free[i];
    assert g.live == h.live && g.free == h.free;
  }

  // ------------------------------------------------------------------
  // Runs
  // ------------------------------------------------------------------

  /** `StoreOp` stores the word `w` at address `x` in the payload of the block at `a`. */
  datatype Op = MallocOp(size: Size) | FreeOp(a: nat) | StoreOp(a: nat, x: nat, w: nat)

  /** The word at `x` lies behind the header of the block at `a` and inside the block. */
  predicate InPayload(h: Heap, a: nat, x: nat) {
    a in h.blocks && x % 8 == 0 && a + 16 <= x && x + 8 <= a + Extent(h.blocks[a])
  }

  /** Clients free only blocks they hold, and store only 64-bit words and only into the payload of such blocks. */
  ghost predicate Allowed(h: Heap, op: Op) {
    && |h.free| == 6
    && (op.FreeOp? ==> op.a in h.live && op.a in h.blocks && (h.blocks[op.a].Small? ==> h.blocks[op.a].pool < 6))
    && (op.StoreOp? ==> op.a in h.live && InPayload(h, op.a, op.x) && op.w < 0x1_0000_0000_0000_0000)
  }

  function Step(h: Heap, op: Op): Heap
    requires Allowed(h, op)
  {
    match op
    case MallocOp(size) => Malloc(h, size).0
    case FreeOp(a) => Free(h, a)
    case StoreOp(_, _, _) => h
  }

  ghost predicate AllowedRun(h: Heap, ops: seq<Op>)
    decreases |ops|
  {
    ops == [] || (Allowed(h, ops[0]) && AllowedRun(Step(h, ops[0]), ops[1..]))
  }

  ghost function Run(h: Heap, ops: seq<Op>): Heap
    requires AllowedRun(h, ops)
    decreases |ops|
  {
    if ops == [] then h else Run(Step(h, ops[0]), ops[1..])
  }

  lemma {:induction false} RunWellFormed(h: Heap, ops: seq<Op>)
    requires WellFormed(h) && AllowedRun(h, ops)
    ensures WellFormed(Run(h, ops))
    decreases |ops|
  {
    hide WellFormed;
    if ops != [] {
      match ops[0] {
        case MallocOp(size) => MallocWellFormed(h, size);
        case FreeOp(a) => FreeWellFormed(h, a);
        case StoreOp(_, _, _) =>
      }
      RunWellFormed(Step(h, ops[0]), ops[1..]);
    }
  }

  /** Carving changes no block below the pages carved. */
  lemma {:induction false} CarveKeeps(h: Heap, i: nat, a: nat, n: nat, b: nat)
    requires i < |h.free| && b in h.blocks && b < a
    ensures b in Carve(h, i, a, n).blocks && Carve(h, i, a, n).blocks[b] == h.blocks[b] && Carve(h, i, a, n).live == h.live
    decreases n
  {
    if n > 0 {
      CarveKeeps(AddFree(h, i, a), i, a + BlockSize(i), n - 1, b);
    }
  }

  lemma {:induction false} MallocKeeps(h: Heap, size: Size, a: nat)
    requires WellFormed(h) && |h.free| == 6 && a in h.live && a in h.blocks
    ensures var h' := Malloc(h, size).0; a in h'.live && a in h'.blocks && h'.blocks[a] == h.blocks[a]
  {
    hide Carve, Sized, Sorted;
    var i := PoolFor(size);
    assert 0 < Extent(h.blocks[a]) && a < h.next;
    if 0 < size && i < 6 && h.free[i] == [] {
      var (base, next) := M.Grant(h.next, 4);
      if base != 0 {
        CarveKeeps(h.(next := next), i, base, 16384 / BlockSize(i), a);
      }
    }
  }

  /** A block that is not freed stays live and where it is. */
  lemma {:induction false} StepKeeps(h: Heap, op: Op, a: nat)
    requires WellFormed(h) && Allowed(h, op) && a in h.live && op != FreeOp(a)
    ensures a in h.blocks && a in Step(h, op).live && a in Step(h, op).blocks && Step(h, op).blocks[a] == h.blocks[a]
  {
    hide Disjoint, Sized, Malloc;
    SortedShape(h);
    if op.MallocOp? {
      hide Sorted;
      MallocKeeps(h, op.size, a);
    }
  }

  /** What each operation of a run returns: the address for `kmalloc`, 0 for the others. */
  ghost function Returns(h: Heap, ops: seq<Op>): (rets: seq<nat>)
    requires AllowedRun(h, ops)
    ensures |rets| == |ops|
    decreases |ops|
  {
    if ops == [] then []
    else [if ops[0].MallocOp? then Malloc(h, ops[0].size).1 else 0] + Returns(Step(h, ops[0]), ops[1..])
  }

  /** The blocks clients hold, with their sizes, told from what they asked for, what they were given and what they freed. */
  function Held(live: map<nat, Size>, ops: seq<Op>, rets: seq<nat>): map<nat, Size>
    requires |rets| == |ops|
    decreases |ops|
  {
    if ops == [] then live
    else
      var live' :=
        match ops[0]
        case MallocOp(size) => if rets[0] < 16 then live else live[rets[0] - 16 := size]
        case FreeOp(a) => live - {a}
        case StoreOp(_, _, _) => live;
      Held(live', ops[1..], rets[1..])
  }

  /** Over every run: the live blocks are those 16 bytes below the addresses clients were given and have not freed. */
  lemma {:induction false} RunHeld(h: Heap, ops: seq<Op>)
    requires WellFormed(h) && AllowedRun(h, ops)
    ensures Run(h, ops).live == Held(h.live, ops, Returns(h, ops))
    decreases |ops|
  {
    hide WellFormed, Malloc, NoBlock, Smallest, Gross;
    if ops != [] {
      var h' := Step(h, ops[0]);
      assert Returns(h, ops)[1..] == Returns(h', ops[1..]);
      match ops[0] {
        case MallocOp(size) =>
          MallocWellFormed(h, size);
          MallocResult(h, size);
        case FreeOp(a) => FreeWellFormed(h, a);
        case StoreOp(_, _, _) =>
      }
      RunHeld(h', ops[1..]);
    }
  }

  const EMPTY: Heap := Heap(M.HEAP_START, map[], map[], [[], [], [], [], [], []])

  /** The bytes a client may use: `size` bytes after the header. */
  predicate Fits(size: Size, b: Block) {
    16 + size <= Extent(b)
  }

  /** A pool serves the size with its header, or the size is below 2^44 and leaves room for the header on its last page. */
  predicate Served(size: Size) {
    size + 16 <= 2048 || (size < 0x1000_0000_0000 && 1 <= size % 4096 <= 4080)
  }

  /**
    In every run all blocks, live and free, are pairwise disjoint, and a live block holds its header and payload
    exactly when its size is `Served`.
   */
  lemma {:induction false} EveryRunDisjoint(ops: seq<Op>)
    requires AllowedRun(EMPTY, ops)
    ensures var h := Run(EMPTY, ops);
            && Disjoint(h, h.next)
            && (forall a :: a in h.live ==> a in h.blocks)
            && (forall a :: a in h.live ==> (Fits(h.live[a], h.blocks[a]) <==> Served(h.live[a])))
  {
    hide Disjoint, KindFor, Fits, Served;
    EmptyWellFormed();
    RunWellFormed(EMPTY, ops);
    var h := Run(EMPTY, ops);
    forall a | a in h.live
      ensures a in h.blocks && (Fits(h.live[a], h.blocks[a]) <==> Served(h.live[a]))
    {
      FitsExact(h.live[a], h.blocks[a]);
    }
  }

  lemma {:induction false} EmptyWellFormed()
    ensures WellFormed(EMPTY)
  {
    assert M.HEAP_START == 4096 * 0xF000_0000;
  }

  /** A block of the kind the size asks for holds it exactly when the size is `Served`. */
  lemma {:induction false} FitsExact(size: Size, b: Block)
    requires KindFor(size, b)
    ensures Fits(size, b) <==> Served(size)
  {
    match b
    case Small(i) => SmallFits(size);
    case Large(pages) => LargeFits(size);
  }

  lemma {:induction false} SmallFits(size: Size)
    requires PoolFor(size) < 6
    ensures 16 + size <= BlockSize(PoolFor(size)) <==> Served(size)
  {
    hide BlockSize;
    if size + 16 < 0x1_0000_0000_0000_0000 {
      assert Gross(size) == size + 16;
    }
  }

  lemma {:induction false} LargeFits(size: Size)
    requires PoolFor(size) == 6 && 0 < PagesFor(size)
    ensures 16 + size <= 4096 * PagesFor(size) <==> Served(size)
  {
    NoPoolMeans(size);
    var q, r := size / 4096, size % 4096;
    var n := q + if r != 0 then 1 else 0;
    assert size == 4096 * q + r;
    if size < 0x1000_0000_0000 {
      assert n <= 0x1_0000_0000;
      ToIntSmall(n);
    } else {
      ToIntBelow(n);
    }
  }

  lemma {:induction false} NoPoolMeans(size: Size)
    requires PoolFor(size) == 6
    ensures 2048 < size + 16
  {
  }

  lemma {:induction false} ToIntSmall(n: nat)
    requires n <= 0x1_0000_0000 && 0 < ToInt(n)
    ensures ToInt(n) == n
  {
  }

  lemma {:induction false} ToIntBelow(n: nat)
    ensures ToInt(n) < 0x8000_0000
  {
  }

  /** A size at which `size + 16` wraps: the client asks for all of memory and gets 16 bytes. */
  lemma {:induction false} SizeWraps()
    ensures var (h, p) := Malloc(EMPTY, 0xFFFF_FFFF_FFFF_FFF0);
            16 <= p && p - 16 in h.live && p - 16 in h.blocks && Extent(h.blocks[p - 16]) == 32
  {
    hide Carve;
    assert PoolFor(0xFFFF_FFFF_FFFF_FFF0) == 0;
    EmptyWellFormed();
    RefillWellFormed(EMPTY, 0);
    var r := Refill(EMPTY, 0);
    assert Stack(r, 0) && r.free[0][0] in r.free[0];
  }

  /** A size whose page count does not fit an `int`: sixteen terabytes are served with one page. */
  lemma {:induction false} PagesTruncate()
    ensures PagesFor(0x1000_0000_0001) == 1
    ensures var (h, p) := Malloc(EMPTY, 0x1000_0000_0001);
            p == M.HEAP_START + 16 && M.HEAP_START in h.live && h.blocks == map[M.HEAP_START := Large(1)]
  {
    assert PoolFor(0x1000_0000_0001) == 6;
    assert 0x1000_0000_0001 / 4096 == 0x1_0000_0000 && 0x1000_0000_0001 % 4096 == 1;
  }

  /** Two allocations of one page each: the last 16 bytes of the first payload are the header of the second block. */
  lemma {:induction false} LargeOverrun()
    ensures var (h1, p1) := Malloc(EMPTY, 4096);
            |h1.free| == 6 &&
            var (h2, p2) := Malloc(h1, 4096);
            p1 != 0 && p2 != 0 && p1 <= p2 - 16 && p2 <= p1 + 4096
  {
    assert PoolFor(4096) == 6 && PagesFor(4096) == 1;
  }
}
