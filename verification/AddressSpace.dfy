/**
  The abstract state of virtual memory: a FIFO queue of free frames, the tree of
  page tables (each node with the frame that holds it), the flat map from virtual
  pages to their state, and the use every frame is put to. The operations of
  src/arch/x86_64/paging.c are functions on it; module Mmu shows that the word-level
  code computes them.
 */
module AddressSpace {
  import opened Basics
  import opened PhysicalMemory
  import opened FrameQueue

  /** A virtual page number: virtual address divided by 4096, 36 bits wide. */
  type Page = nat

  /** A node of the translation tree: depth 0 is the P4 table, depths 1 to 3 the tables below, depth 4 the pages. */
  datatype Node = Node(depth: nat, number: nat)

  const ROOT: Node := Node(0, 0)
  /** The P3 table of the identity map, set up at boot in P4 entry 0. */
  const IDENTITY: Node := Node(1, 0)

  const P4_SPAN: nat := 512 * 512 * 512

  /** Pages outside P4 entry 0, whose entries map huge pages, and inside the 48-bit address space. */
  predicate Managed(v: Page) {
    P4_SPAN <= v < 512 * P4_SPAN
  }

  /** The number, at its own depth, of the node on the way to page `v`. */
  function Ancestor(v: Page, depth: nat): nat
    requires depth <= 4
    decreases 4 - depth
  {
    if depth == 4 then v else Ancestor(v, depth + 1) / 512
  }

  function On(v: Page, depth: nat): Node
    requires depth <= 4
  {
    Node(depth, Ancestor(v, depth))
  }

  function Parent(n: Node): Node
    requires 0 < n.depth
  {
    Node(n.depth - 1, n.number / 512)
  }

  /** `pt_offset_for_depth`: shift and mask of the virtual address. */
  function OffsetForDepth(vaddr: nat, depth: nat): nat
    requires depth <= 4
  {
    if depth == 4 then vaddr % 4096
    else if depth == 3 then vaddr / 0x1000 % 512
    else if depth == 2 then vaddr / 0x20_0000 % 512
    else if depth == 1 then vaddr / 0x4000_0000 % 512
    else vaddr / 0x80_0000_0000 % 512
  }

  lemma {:induction false} OffsetIsChildNumber(vaddr: nat, depth: nat)
    requires depth < 4
    ensures OffsetForDepth(vaddr, depth) == Ancestor(vaddr / 4096, depth + 1) % 512
  {
    var v := vaddr / 4096;
    assert Ancestor(v, 4) == v;
    assert Ancestor(v, 3) == v / 512 == vaddr / 0x20_0000;
    assert Ancestor(v, 2) == Ancestor(v, 3) / 512 == vaddr / 0x4000_0000;
    assert Ancestor(v, 1) == Ancestor(v, 2) / 512 == vaddr / 0x80_0000_0000;
  }

  lemma {:induction false} ManagedTop(v: Page)
    requires Managed(v)
    ensures On(v, 0) == ROOT && On(v, 1) != IDENTITY
  {
    assert Ancestor(v, 3) == v / 512;
    assert Ancestor(v, 2) == v / 512 / 512;
    assert Ancestor(v, 1) == v / 512 / 512 / 512;
    assert Ancestor(v, 0) == v / 512 / 512 / 512 / 512;
  }

  /** The four table indices and the in-page offset determine a 48-bit virtual address. */
  lemma {:induction false} IndicesDetermineAddress(a: nat, b: nat)
    requires a < 0x1_0000_0000_0000 && b < 0x1_0000_0000_0000
    requires forall d :: 0 <= d <= 4 ==> OffsetForDepth(a, d) == OffsetForDepth(b, d)
    ensures a == b
  {
    RebuildAddress(a);
    RebuildAddress(b);
    assert OffsetForDepth(a, 0) == OffsetForDepth(b, 0) && OffsetForDepth(a, 1) == OffsetForDepth(b, 1);
    assert OffsetForDepth(a, 2) == OffsetForDepth(b, 2) && OffsetForDepth(a, 3) == OffsetForDepth(b, 3);
    assert OffsetForDepth(a, 4) == OffsetForDepth(b, 4);
  }

  lemma {:induction false} RebuildAddress(a: nat)
    requires a < 0x1_0000_0000_0000
    ensures a == (((OffsetForDepth(a, 0) * 512 + OffsetForDepth(a, 1)) * 512
                  + OffsetForDepth(a, 2)) * 512 + OffsetForDepth(a, 3)) * 4096 + OffsetForDepth(a, 4)
  {
    var v3 := a / 4096;
    var v2 := v3 / 512;
    var v1 := v2 / 512;
    var v0 := v1 / 512;
    assert v2 == a / 0x20_0000 && v1 == a / 0x4000_0000 && v0 == a / 0x80_0000_0000;
  }

  // ------------------------------------------------------------------
  // State and operations
  // ------------------------------------------------------------------

  datatype Use = Vacant | Table(node: Node) | Backing(page: Page)
  datatype Leaf = Reserved | Mapped(frame: Frame)

  datatype Space = Space(
    free: seq<Frame>,            // queue of free frames
    tables: map<Node, Frame>,    // the frame holding each page table
    pages: map<Page, Leaf>,      // pages reserved or mapped; all others are unreserved
    owner: map<Frame, Use>)      // the use of every frame the kernel manages

  predicate IsMapped(s: Space, v: Page) {
    v in s.pages && s.pages[v].Mapped?
  }

  function AddTable(s: Space, n: Node): Space
    requires s.free != []
  {
    var f := s.free[0];
    Space(s.free[1..], s.tables[n := f], s.pages, s.owner[f := Table(n)])
  }

  function Reserve(s: Space, v: Page): Space {
    s.(pages := s.pages[v := Reserved])
  }

  function MapPage(s: Space, v: Page): Space
    requires s.free != []
  {
    var f := s.free[0];
    Space(s.free[1..], s.tables, s.pages[v := Mapped(f)], s.owner[f := Backing(v)])
  }

  function UnmapPage(s: Space, v: Page): Space
    requires IsMapped(s, v)
  {
    var f := s.pages[v].frame;
    Space(s.free + [f], s.tables, s.pages - {v}, s.owner[f := Vacant])
  }

  /** Add the missing tables on the way to `v` from `depth` on; stop when frames run out. */
  function Build(s: Space, v: Page, depth: nat): (Space, bool)
    requires depth <= 4
    decreases 4 - depth
  {
    if depth == 4 then (s, true)
    else if On(v, depth) in s.tables then Build(s, v, depth + 1)
    else if s.free == [] then (s, false)
    else Build(AddTable(s, On(v, depth)), v, depth + 1)
  }

  /** `PT_demand_allocate`: the new state and whether it returned 0. */
  function Demand(s: Space, v: Page): (Space, bool) {
    if IsMapped(s, v) then (s, false)
    else
      var (s', built) := Build(s, v, 1);
      if built then (Reserve(s', v), true) else (s', false)
  }

  /** `page_fault_handler` for an address in page `v`. */
  function Fault(s: Space, v: Page): Space {
    if v in s.pages && s.pages[v].Reserved? && s.free != [] then MapPage(s, v) else s
  }

  /** `MMU_free_page`. */
  function Release(s: Space, v: Page): Space {
    if IsMapped(s, v) then UnmapPage(s, v) else s
  }

  /** `MMU_free_pages`. */
  function ReleaseRange(s: Space, v: Page, n: nat): Space
    decreases n
  {
    if n == 0 then s else Release(ReleaseRange(s, v, n - 1), v + n - 1)
  }

  // ------------------------------------------------------------------
  // The invariant
  // ------------------------------------------------------------------

  /** The tables form a tree rooted in the P4 table, disjoint from the identity map. */
  ghost predicate Tree(s: Space) {
    && ROOT in s.tables
    && IDENTITY !in s.tables
    && (forall n :: n in s.tables ==> n.depth <= 3 && (n.depth == 0 ==> n == ROOT))
    && (forall n {:trigger Parent(n)} :: n in s.tables && 0 < n.depth ==> Parent(n) in s.tables)
    && (forall v :: v in s.pages ==> On(v, 3) in s.tables)
  }

  /** The free queue holds exactly the vacant frames, each once. */
  ghost predicate OwnsFree(s: Space) {
    && NoDup(s.free)
    && NULL !in s.owner
    && (forall f :: f in s.free <==> f in s.owner && s.owner[f] == Vacant)
  }

  ghost predicate OwnsTables(s: Space) {
    && (forall n :: n in s.tables ==> s.tables[n] in s.owner && s.owner[s.tables[n]] == Table(n))
    && (forall f :: f in s.owner && s.owner[f].Table? ==>
          s.owner[f].node in s.tables && s.tables[s.owner[f].node] == f)
  }

  ghost predicate OwnsPages(s: Space) {
    && (forall v :: IsMapped(s, v) ==> s.pages[v].frame in s.owner && s.owner[s.pages[v].frame] == Backing(v))
    && (forall f :: f in s.owner && s.owner[f].Backing? ==>
          s.owner[f].page in s.pages && s.pages[s.owner[f].page] == Mapped(f))
  }

  /** The tables form a tree and `owner` records for every frame the one use it has. */
  ghost predicate WellFormed(s: Space) {
    Tree(s) && OwnsFree(s) && OwnsTables(s) && OwnsPages(s)
  }

  lemma {:induction false} HeadIsFree(s: Space)
    requires OwnsFree(s) && s.free != []
    ensures s.free[0] in s.owner && s.owner[s.free[0]] == Vacant
    ensures forall f :: f in s.free[1..] <==> f in s.free && f != s.free[0]
  {
    assert s.free[0] in s.free;
    assert s.free == [s.free[0]] + s.free[1..];
  }

  /** Taking the head frame for some use leaves the rest of the queue vacant. */
  lemma {:induction false} TakeHead(s: Space, s': Space, use: Use)
    requires OwnsFree(s) && s.free != [] && use != Vacant
    requires s'.free == s.free[1..] && s'.owner == s.owner[s.free[0] := use]
    ensures OwnsFree(s') && s'.owner.Keys == s.owner.Keys
  {
    HeadIsFree(s);
  }

  /** Giving a frame that holds no table a use other than as a table. */
  lemma {:induction false} KeepTables(s: Space, s': Space, f: Frame, use: Use)
    requires OwnsTables(s) && s'.tables == s.tables && s'.owner == s.owner[f := use]
    requires !use.Table? && f in s.owner && !s.owner[f].Table?
    ensures OwnsTables(s')
  {
  }

  /** Giving a frame that backs no page a use other than backing a page. */
  lemma {:induction false} KeepPages(s: Space, s': Space, f: Frame, use: Use)
    requires OwnsPages(s) && s'.pages == s.pages && s'.owner == s.owner[f := use]
    requires !use.Backing? && f in s.owner && !s.owner[f].Backing?
    ensures OwnsPages(s')
  {
  }

  lemma {:induction false} AddTableTree(s: Space, n: Node)
    requires Tree(s) && s.free != []
    requires 0 < n.depth <= 3 && n != IDENTITY && Parent(n) in s.tables
    ensures Tree(AddTable(s, n))
  {
  }

  lemma {:induction false} AddTableOwner(s: Space, n: Node)
    requires OwnsTables(s) && s.free != [] && n !in s.tables
    requires s.free[0] in s.owner && s.owner[s.free[0]] == Vacant
    ensures OwnsTables(AddTable(s, n))
  {
  }

  lemma {:induction false} AddTableWellFormed(s: Space, n: Node)
    requires WellFormed(s) && s.free != []
    requires n !in s.tables && 0 < n.depth <= 3 && n != IDENTITY && Parent(n) in s.tables
    ensures WellFormed(AddTable(s, n)) && AddTable(s, n).owner.Keys == s.owner.Keys
  {
    hide Tree, OwnsFree, OwnsTables, OwnsPages;
    var s' := AddTable(s, n);
    HeadIsFree(s);
    AddTableTree(s, n);
    TakeHead(s, s', Table(n));
    AddTableOwner(s, n);
    KeepPages(s, s', s.free[0], Table(n));
  }

  lemma {:induction false} MapPageOwner(s: Space, v: Page)
    requires OwnsPages(s) && s.free != [] && v in s.pages && s.pages[v].Reserved?
    requires s.free[0] in s.owner && s.owner[s.free[0]] == Vacant
    ensures OwnsPages(MapPage(s, v))
  {
  }

  lemma {:induction false} SameShape(s: Space, s': Space)
    requires Tree(s) && s'.tables == s.tables && s'.pages.Keys <= s.pages.Keys
    ensures Tree(s')
  {
  }

  lemma {:induction false} MapPageWellFormed(s: Space, v: Page)
    requires WellFormed(s) && s.free != []
    requires v in s.pages && s.pages[v].Reserved?
    ensures WellFormed(MapPage(s, v)) && MapPage(s, v).owner.Keys == s.owner.Keys
  {
    hide Tree, OwnsFree, OwnsTables, OwnsPages;
    var s' := MapPage(s, v);
    HeadIsFree(s);
    SameShape(s, s');
    TakeHead(s, s', Backing(v));
    KeepTables(s, s', s.free[0], Backing(v));
    MapPageOwner(s, v);
  }

  lemma {:induction false} UnmapPageFree(s: Space, v: Page)
    requires OwnsFree(s) && IsMapped(s, v)
    requires s.pages[v].frame in s.owner && s.owner[s.pages[v].frame] == Backing(v)
    ensures OwnsFree(UnmapPage(s, v)) && UnmapPage(s, v).owner.Keys == s.owner.Keys
  {
  }

  lemma {:induction false} UnmapPageOwner(s: Space, v: Page)
    requires OwnsPages(s) && IsMapped(s, v)
    ensures s.pages[v].frame in s.owner && s.owner[s.pages[v].frame] == Backing(v)
    ensures OwnsPages(UnmapPage(s, v))
  {
  }

  lemma {:induction false} UnmapPageWellFormed(s: Space, v: Page)
    requires WellFormed(s) && IsMapped(s, v)
    ensures WellFormed(UnmapPage(s, v)) && UnmapPage(s, v).owner.Keys == s.owner.Keys
  {
    hide Tree, OwnsFree, OwnsTables, OwnsPages;
    UnmapPageOwner(s, v);
    SameShape(s, UnmapPage(s, v));
    UnmapPageFree(s, v);
    KeepTables(s, UnmapPage(s, v), s.pages[v].frame, Vacant);
  }

  lemma {:induction false} ReserveTree(s: Space, v: Page)
    requires Tree(s) && On(v, 3) in s.tables
    ensures Tree(Reserve(s, v))
  {
  }

  lemma {:induction false} ReserveOwner(s: Space, v: Page)
    requires OwnsPages(s) && OwnsFree(s) && OwnsTables(s) && !IsMapped(s, v)
    ensures OwnsPages(Reserve(s, v)) && OwnsFree(Reserve(s, v)) && OwnsTables(Reserve(s, v))
  {
  }

  lemma {:induction false} ReserveWellFormed(s: Space, v: Page)
    requires WellFormed(s) && !IsMapped(s, v) && On(v, 3) in s.tables
    ensures WellFormed(Reserve(s, v))
  {
    hide Tree, OwnsFree, OwnsTables, OwnsPages;
    ReserveTree(s, v);
    ReserveOwner(s, v);
  }

  /** Building tables keeps the invariant, touches no page, and on success leads down to the page's P1 table. */
  lemma {:induction false} BuildWellFormed(s: Space, v: Page, depth: nat)
    requires WellFormed(s) && Managed(v) && 0 < depth <= 4
    requires On(v, depth - 1) in s.tables
    ensures WellFormed(Build(s, v, depth).0)
    ensures Build(s, v, depth).1 ==> On(v, 3) in Build(s, v, depth).0.tables
    ensures Build(s, v, depth).0.pages == s.pages
    ensures Build(s, v, depth).0.owner.Keys == s.owner.Keys
    decreases 4 - depth
  {
    hide WellFormed, Managed;
    ManagedTop(v);
    if depth < 4 {
      var n := On(v, depth);
      if n in s.tables {
        BuildWellFormed(s, v, depth + 1);
      } else if s.free != [] {
        AddTableWellFormed(s, n);
        BuildWellFormed(AddTable(s, n), v, depth + 1);
      }
    }
  }

  lemma {:induction false} BuildPages(s: Space, v: Page, depth: nat)
    requires depth <= 4
    ensures Build(s, v, depth).0.pages == s.pages
    decreases 4 - depth
  {
    if depth < 4 {
      if On(v, depth) in s.tables {
        BuildPages(s, v, depth + 1);
      } else if s.free != [] {
        BuildPages(AddTable(s, On(v, depth)), v, depth + 1);
      }
    }
  }

  /** Demand allocation maps and unmaps nothing, and reserves nothing but the page. */
  lemma {:induction false} DemandPages(s: Space, v: Page)
    ensures Demand(s, v).0.pages == if Demand(s, v).1 then s.pages[v := Reserved] else s.pages
    ensures forall w :: IsMapped(Demand(s, v).0, w) <==> IsMapped(s, w)
  {
    hide Build;
    BuildPages(s, v, 1);
  }

  lemma {:induction false} DemandWellFormed(s: Space, v: Page)
    requires WellFormed(s) && Managed(v)
    ensures WellFormed(Demand(s, v).0)
    ensures Demand(s, v).0.owner.Keys == s.owner.Keys
    ensures Demand(s, v).0.pages == if Demand(s, v).1 then s.pages[v := Reserved] else s.pages
  {
    hide Build, Managed, Ancestor, OwnsFree, OwnsTables, OwnsPages;
    ManagedTop(v);
    BuildWellFormed(s, v, 1);
    if Demand(s, v).1 {
      ReserveWellFormed(Build(s, v, 1).0, v);
    }
  }

  // ------------------------------------------------------------------
  // What demand allocation costs
  // ------------------------------------------------------------------

  /** The tables on the way to page `v`, from `depth` down. */
  function Way(v: Page, depth: nat): set<Node>
    decreases 4 - depth
  {
    if depth >= 4 then {} else {On(v, depth)} + Way(v, depth + 1)
  }

  /** How many of the tables in `way` are not there. */
  function Lack(s: Space, way: set<Node>): nat {
    |way - s.tables.Keys|
  }

  /** Frames were taken from the front of the queue for exactly the tables of `way` that were not there. */
  ghost predicate Furnished(s: Space, way: set<Node>, s': Space) {
    && Lack(s, way) <= |s.free| && s'.free == s.free[Lack(s, way)..] && s'.tables.Keys == s.tables.Keys + way
  }

  lemma {:induction false} LackAdds(s: Space, a: set<Node>, s1: Space, b: set<Node>)
    requires s1.tables.Keys == s.tables.Keys + a
    ensures Lack(s, a + b) == Lack(s, a) + Lack(s1, b)
  {
    var x, y := a - s.tables.Keys, b - s1.tables.Keys;
    assert a + b - s.tables.Keys == x + y && x !! y;
  }

  lemma {:induction false} Present(keys: set<Node>, n: Node, rest: set<Node>)
    requires n in keys
    ensures {n} + rest - keys == rest - keys && keys + ({n} + rest) == keys + rest
  {
  }

  lemma {:induction false} LackOne(s: Space, n: Node, rest: set<Node>)
    ensures n in s.tables ==> Lack(s, {n} + rest) == Lack(s, rest) && s.tables.Keys + ({n} + rest) == s.tables.Keys + rest
    ensures n !in s.tables ==> Lack(s, {n}) == 1 && 1 <= Lack(s, {n} + rest)
  {
    if n in s.tables {
      Present(s.tables.Keys, n, rest);
    } else {
      assert {n} - s.tables.Keys == {n};
      LackGrows(s, {n}, rest);
    }
  }

  lemma {:induction false} LackGrows(s: Space, a: set<Node>, b: set<Node>)
    ensures Lack(s, a) <= Lack(s, a + b)
  {
    var x, y := a - s.tables.Keys, a + b - s.tables.Keys;
    assert y == x + (y - x);
  }

  lemma {:induction false} LackNothing(s: Space, way: set<Node>)
    ensures Lack(s, way) == 0 <==> way - s.tables.Keys == {}
    ensures Lack(s, way) == 0 ==> s.tables.Keys + way == s.tables.Keys
  {
    if Lack(s, way) == 0 {
      assert forall n :: n in way ==> n in s.tables.Keys || n in way - s.tables.Keys;
    }
  }

  /** Some table of `way` is missing, and no frame is left for it. */
  ghost predicate Short(s: Space, way: set<Node>) {
    s.free == [] && exists n :: n in way && n !in s.tables
  }

  lemma {:induction false} FurnishedThen(s: Space, a: set<Node>, s1: Space, b: set<Node>, s': Space)
    requires Furnished(s, a, s1) && Furnished(s1, b, s')
    ensures Furnished(s, a + b, s')
  {
    hide Lack;
    LackAdds(s, a, s1, b);
    var m, n := Lack(s, a), Lack(s1, b);
    assert s.free[m..][n..] == s.free[m + n..];
    assert s.tables.Keys + a + b == s.tables.Keys + (a + b);
  }

  lemma {:induction false} AddTableFurnishes(s: Space, n: Node)
    requires s.free != [] && n !in s.tables
    ensures Furnished(s, {n}, AddTable(s, n)) && AddTable(s, n).tables.Keys == s.tables.Keys + {n}
    ensures |AddTable(s, n).free| == |s.free| - 1
  {
    LackOne(s, n, {});
  }

  lemma {:induction false} FurnishedSame(s: Space, n: Node, rest: set<Node>, s': Space)
    requires n in s.tables
    ensures Furnished(s, {n} + rest, s') <==> Furnished(s, rest, s')
  {
    LackOne(s, n, rest);
  }

  lemma {:induction false} BuildExact(s: Space, v: Page, depth: nat)
    requires depth <= 4
    ensures Build(s, v, depth).1 <==> Lack(s, Way(v, depth)) <= |s.free|
    ensures Build(s, v, depth).1 ==> Furnished(s, Way(v, depth), Build(s, v, depth).0)
    ensures !Build(s, v, depth).1 ==> Short(Build(s, v, depth).0, Way(v, depth))
    decreases 4 - depth
  {
    hide On, Lack, Furnished, AddTable;
    if depth == 4 {
      NothingLacks(s);
    } else {
      var n, rest := On(v, depth), Way(v, depth + 1);
      LackOne(s, n, rest);
      if n in s.tables {
        BuildExact(s, v, depth + 1);
        FurnishedSame(s, n, rest, Build(s, v, depth + 1).0);
      } else if s.free != [] {
        var s1 := AddTable(s, n);
        AddTableFurnishes(s, n);
        LackAdds(s, {n}, s1, rest);
        BuildExact(s1, v, depth + 1);
        if Build(s1, v, depth + 1).1 {
          FurnishedThen(s, {n}, s1, rest, Build(s1, v, depth + 1).0);
        }
      }
    }
  }

  /**
    `PT_demand_allocate` succeeds if and only if the page is not mapped and there is a free frame for every table
    missing on the way to it. When frames run out it has used them all up.
   */
  lemma {:induction false} DemandExact(s: Space, v: Page)
    ensures Demand(s, v).1 <==> !IsMapped(s, v) && Lack(s, Way(v, 1)) <= |s.free|
    ensures Demand(s, v).1 ==> Furnished(s, Way(v, 1), Demand(s, v).0) && Demand(s, v).0.pages == s.pages[v := Reserved]
    ensures IsMapped(s, v) ==> Demand(s, v).0 == s
    ensures !IsMapped(s, v) && !Demand(s, v).1 ==>
              Short(Demand(s, v).0, Way(v, 1)) && Demand(s, v).0.pages == s.pages
  {
    hide Build, Way, Lack;
    BuildExact(s, v, 1);
    BuildPages(s, v, 1);
  }

  /** Demand allocation of one page after the other. */
  function DemandEach(s: Space, vs: seq<Page>): Space
    decreases |vs|
  {
    if vs == [] then s else Demand(DemandEach(s, vs[..|vs| - 1]), vs[|vs| - 1]).0
  }

  /** The tables on the ways to all of them. */
  function Ways(vs: seq<Page>): set<Node>
    decreases |vs|
  {
    if vs == [] then {} else Ways(vs[..|vs| - 1]) + Way(vs[|vs| - 1], 1)
  }

  /** Some page did not get its tables, and no frame is left for them. */
  ghost predicate RanOut(s: Space, vs: seq<Page>) {
    exists v :: v in vs && v !in s.pages && Short(s, Way(v, 1))
  }

  /** Without free frames demand allocation adds no table. */
  lemma {:induction false} ShortStays(s: Space, w: Page, way: set<Node>)
    requires Short(s, way)
    ensures Short(Demand(s, w).0, way) && Demand(s, w).0.tables == s.tables
    ensures Demand(s, w).1 ==> !Short(s, Way(w, 1))
  {
    BuildNothing(s, w, 1);
    DemandExact(s, w);
    LackNothing(s, Way(w, 1));
  }

  lemma {:induction false} BuildNothing(s: Space, v: Page, depth: nat)
    requires depth <= 4 && s.free == []
    ensures Build(s, v, depth).0 == s
    decreases 4 - depth
  {
    if depth < 4 && On(v, depth) in s.tables {
      BuildNothing(s, v, depth + 1);
    }
  }

  lemma {:induction false} RanOutStays(s: Space, vs: seq<Page>, w: Page)
    requires RanOut(s, vs)
    ensures RanOut(Demand(s, w).0, vs + [w])
  {
    hide Demand, Way, Short;
    DemandPages(s, w);
    var v :| v in vs && v !in s.pages && Short(s, Way(v, 1));
    ShortStays(s, w, Way(v, 1));
    assert v in vs + [w];
  }

  lemma {:induction false} WayOfMember(vs: seq<Page>, v: Page)
    requires v in vs
    ensures Way(v, 1) <= Ways(vs)
    decreases |vs|
  {
    hide Way;
    var init, w := vs[..|vs| - 1], vs[|vs| - 1];
    assert vs == init + [w];
    if v != w {
      assert v in init;
      WayOfMember(init, v);
    }
  }

  /**
    Any number of pages, none of them reserved before: each is reserved afterwards if and only if there are as many free
    frames as tables are missing on the ways to all of them; tables that ways share are paid for once.
   */
  lemma {:induction false} DemandEachExact(s: Space, vs: seq<Page>)
    requires forall v :: v in vs ==> v !in s.pages
    ensures (forall v :: v in vs ==> v in DemandEach(s, vs).pages) <==> Lack(s, Ways(vs)) <= |s.free|
    ensures Lack(s, Ways(vs)) <= |s.free| ==> Furnished(s, Ways(vs), DemandEach(s, vs))
    ensures Lack(s, Ways(vs)) > |s.free| ==> RanOut(DemandEach(s, vs), vs)
    ensures forall w :: IsMapped(DemandEach(s, vs), w) <==> IsMapped(s, w)
    ensures forall w :: w in DemandEach(s, vs).pages ==> w in s.pages || w in vs
    decreases |vs|
  {
    hide Demand, Way, RanOut, Lack, Furnished, IsMapped;
    if vs == [] {
      NothingLacks(s);
    } else {
      var init, w := vs[..|vs| - 1], vs[|vs| - 1];
      assert vs == init + [w];
      assert forall v :: v in vs <==> v in init || v == w;
      var s1 := DemandEach(s, init);
      DemandEachExact(s, init);
      DemandPages(s1, w);
      LackGrows(s, Ways(init), Way(w, 1));
      if Lack(s, Ways(init)) > |s.free| {
        RanOutStays(s1, init, w);
        RanOutMeans(Demand(s1, w).0, vs);
      } else {
        NotReserved(s, w, s1);
        DemandEachNext(s, init, w, s1);
      }
    }
  }

  lemma {:induction false} NotReserved(s: Space, w: Page, s1: Space)
    requires w !in s.pages && (IsMapped(s1, w) <==> IsMapped(s, w))
    ensures !IsMapped(s1, w)
  {
  }

  lemma {:induction false} NothingLacks(s: Space)
    ensures Lack(s, {}) == 0 && Furnished(s, {}, s)
  {
    LackNothing(s, {});
  }

  lemma {:induction false} RanOutMeans(s: Space, vs: seq<Page>)
    requires RanOut(s, vs)
    ensures !forall v :: v in vs ==> v in s.pages
  {
  }

  /** One more page, when all before it were reserved. */
  lemma {:induction false} DemandEachNext(s: Space, init: seq<Page>, w: Page, s1: Space)
    requires w !in s.pages && !IsMapped(s1, w) && Furnished(s, Ways(init), s1) && (w in s1.pages ==> w in init)
    ensures var s', way := Demand(s1, w).0, Ways(init) + Way(w, 1);
            && (Lack(s, way) <= |s.free| ==> Furnished(s, way, s') && w in s'.pages)
            && (Lack(s, way) > |s.free| ==> w !in s'.pages && RanOut(s', init + [w]))
  {
    hide Demand, Way, Ways, Lack, Short;
    var s' := Demand(s1, w).0;
    DemandExact(s1, w);
    LackAdds(s, Ways(init), s1, Way(w, 1));
    if Demand(s1, w).1 {
      FurnishedThen(s, Ways(init), s1, Way(w, 1), s');
    } else {
      if w in init {
        WayOfMember(init, w);
        AllThere(s1, Ways(init), Way(w, 1));
      }
      assert w in init + [w];
    }
  }

  lemma {:induction false} AllThere(s: Space, ways: set<Node>, way: set<Node>)
    requires ways <= s.tables.Keys && way <= ways
    ensures Lack(s, way) == 0
  {
    assert way - s.tables.Keys == {};
  }

  // ------------------------------------------------------------------
  // Runs
  // ------------------------------------------------------------------

  datatype Op = DemandOp(v: Page) | FaultOp(v: Page) | ReleaseOp(v: Page)

  function Step(s: Space, op: Op): Space {
    match op
    case DemandOp(v) => Demand(s, v).0
    case FaultOp(v) => Fault(s, v)
    case ReleaseOp(v) => Release(s, v)
  }

  function Run(s: Space, ops: seq<Op>): Space
    decreases |ops|
  {
    if ops == [] then s else Run(Step(s, ops[0]), ops[1..])
  }

  // ------------------------------------------------------------------
  // What the kernel can reach
  // ------------------------------------------------------------------

  /** Every frame that becomes a table on the way to `v` is in the kernel's reach, so that it can be cleared. */
  predicate BuildReaches(s: Space, v: Page, depth: nat)
    requires depth <= 4
    decreases 4 - depth
  {
    if depth == 4 then true
    else if On(v, depth) in s.tables then BuildReaches(s, v, depth + 1)
    else if s.free == [] then true
    else s.free[0] < REACH && BuildReaches(AddTable(s, On(v, depth)), v, depth + 1)
  }

  /** The operation touches no frame by its address that is out of the kernel's reach. */
  predicate Reaches(s: Space, op: Op) {
    match op
    case DemandOp(v) => IsMapped(s, v) || BuildReaches(s, v, 1)
    case FaultOp(_) => true
    case ReleaseOp(v) => IsMapped(s, v) ==> s.pages[v].frame < REACH
  }

  predicate RunReaches(s: Space, ops: seq<Op>)
    decreases |ops|
  {
    ops == [] || (Reaches(s, ops[0]) && RunReaches(Step(s, ops[0]), ops[1..]))
  }

  lemma {:induction false} SmallBuildReaches(s: Space, v: Page, depth: nat)
    requires WellFormed(s) && Managed(v) && 0 < depth <= 4 && On(v, depth - 1) in s.tables
    requires forall f :: f in s.owner ==> f < REACH
    ensures BuildReaches(s, v, depth)
    decreases 4 - depth
  {
    hide WellFormed, Managed;
    ManagedTop(v);
    if depth < 4 {
      var n := On(v, depth);
      if n in s.tables {
        SmallBuildReaches(s, v, depth + 1);
      } else if s.free != [] {
        FirstInReach(s);
        AddTableWellFormed(s, n);
        assert forall f :: f in AddTable(s, n).owner ==> f in s.owner.Keys;
        SmallBuildReaches(AddTable(s, n), v, depth + 1);
      }
    }
  }

  lemma {:induction false} FirstInReach(s: Space)
    requires WellFormed(s) && s.free != [] && forall f :: f in s.owner ==> f < REACH
    ensures s.free[0] < REACH
  {
    HeadIsFree(s);
  }

  lemma {:induction false} SmallReaches(s: Space, op: Op)
    requires WellFormed(s) && Managed(op.v) && forall f :: f in s.owner ==> f < REACH
    ensures Reaches(s, op)
  {
    hide BuildReaches, Managed;
    ManagedTop(op.v);
    match op
    case DemandOp(v) => SmallBuildReaches(s, v, 1);
    case FaultOp(_) =>
    case ReleaseOp(v) =>
  }

  /** With no memory above the first gigabyte every run goes through. */
  lemma {:induction false} SmallRunReaches(s: Space, ops: seq<Op>)
    requires WellFormed(s) && (forall op :: op in ops ==> Managed(op.v)) && forall f :: f in s.owner ==> f < REACH
    ensures RunReaches(s, ops)
    decreases |ops|
  {
    hide WellFormed, Step, Reaches, Managed;
    if ops != [] {
      SmallReaches(s, ops[0]);
      StepWellFormed(s, ops[0]);
      assert forall f :: f in Step(s, ops[0]).owner ==> f in s.owner.Keys;
      SmallRunReaches(Step(s, ops[0]), ops[1..]);
    }
  }

  /** No frame serves two purposes: the tables form a tree without sharing and every pair of uses is disjoint. */
  ghost predicate Separated(s: Space) {
    && (forall m, n :: m in s.tables && n in s.tables && m != n ==> s.tables[m] != s.tables[n])
    && (forall v, w :: IsMapped(s, v) && IsMapped(s, w) && v != w ==> s.pages[v].frame != s.pages[w].frame)
    && (forall n, v :: n in s.tables && IsMapped(s, v) ==> s.tables[n] != s.pages[v].frame)
    && (forall n :: n in s.tables ==> s.tables[n] !in s.free)
    && (forall v :: IsMapped(s, v) ==> s.pages[v].frame !in s.free)
  }

  /** The frames in use for something, or free. */
  ghost predicate Accounted(s: Space, f: Frame) {
    f in s.free || (exists n :: n in s.tables && s.tables[n] == f) || (exists v :: IsMapped(s, v) && s.pages[v].frame == f)
  }

  lemma {:induction false} WellFormedSeparates(s: Space)
    requires WellFormed(s)
    ensures Separated(s)
    ensures forall f :: Accounted(s, f) <==> f in s.owner
  {
    forall f
      ensures Accounted(s, f) <==> f in s.owner
    {
      if f in s.owner {
        match s.owner[f]
        case Vacant => assert f in s.free;
        case Table(n) => assert n in s.tables && s.tables[n] == f;
        case Backing(v) => assert IsMapped(s, v) && s.pages[v].frame == f;
      }
    }
  }

  lemma {:induction false} StepWellFormed(s: Space, op: Op)
    requires WellFormed(s) && Managed(op.v)
    ensures WellFormed(Step(s, op))
    ensures Step(s, op).owner.Keys == s.owner.Keys
    ensures forall w :: w != op.v ==> (w in Step(s, op).pages <==> w in s.pages)
    ensures forall w :: w != op.v && w in s.pages ==> Step(s, op).pages[w] == s.pages[w]
  {
    hide WellFormed, Demand;
    match op
    case DemandOp(v) => DemandWellFormed(s, v);
    case FaultOp(v) =>
      if v in s.pages && s.pages[v].Reserved? && s.free != [] {
        MapPageWellFormed(s, v);
      }
    case ReleaseOp(v) =>
      if IsMapped(s, v) {
        UnmapPageWellFormed(s, v);
      }
  }

  lemma {:induction false} RunWellFormed(s: Space, ops: seq<Op>)
    requires WellFormed(s) && forall op :: op in ops ==> Managed(op.v)
    ensures WellFormed(Run(s, ops)) && Run(s, ops).owner.Keys == s.owner.Keys
    decreases |ops|
  {
    hide WellFormed, Step;
    if ops != [] {
      StepWellFormed(s, ops[0]);
      RunWellFormed(Step(s, ops[0]), ops[1..]);
    }
  }

  /**
    Over every run of allocations, faults and frees, including runs that meet
    out-of-memory half way through building tables: the tables form a tree, no frame
    has two uses, none is lost, and none appears that was not there at boot.
   */
  lemma {:induction false} RunSeparates(s: Space, ops: seq<Op>)
    requires WellFormed(s) && forall op :: op in ops ==> Managed(op.v)
    ensures Tree(Run(s, ops)) && Separated(Run(s, ops))
    ensures forall f :: Accounted(Run(s, ops), f) <==> Accounted(s, f)
  {
    hide Tree, OwnsFree, OwnsTables, OwnsPages, Separated, Accounted, Run, Managed;
    RunWellFormed(s, ops);
    WellFormedSeparates(s);
    WellFormedSeparates(Run(s, ops));
  }

  /** Pages no operation of the run names keep their state. */
  lemma {:induction false} RunLocality(s: Space, ops: seq<Op>, w: Page)
    requires WellFormed(s) && forall op :: op in ops ==> Managed(op.v) && op.v != w
    ensures w in Run(s, ops).pages <==> w in s.pages
    ensures w in s.pages ==> Run(s, ops).pages[w] == s.pages[w]
    decreases |ops|
  {
    hide WellFormed;
    if ops != [] {
      StepWellFormed(s, ops[0]);
      RunLocality(Step(s, ops[0]), ops[1..], w);
    }
  }

  lemma {:induction false} ReleaseRangeWellFormed(s: Space, v: Page, n: nat)
    requires WellFormed(s)
    ensures WellFormed(ReleaseRange(s, v, n))
    decreases n
  {
    hide WellFormed;
    if n > 0 {
      ReleaseRangeWellFormed(s, v, n - 1);
      var t := ReleaseRange(s, v, n - 1);
      if IsMapped(t, v + n - 1) {
        UnmapPageWellFormed(t, v + n - 1);
      }
    }
  }

  /** Releasing a range unmaps exactly the mapped pages in it; every other page keeps its state. */
  lemma {:induction false} ReleaseRangeUnmaps(s: Space, v: Page, n: nat, w: Page)
    ensures IsMapped(ReleaseRange(s, v, n), w) <==> IsMapped(s, w) && !(v <= w < v + n)
    ensures !(IsMapped(s, w) && v <= w < v + n) ==> (w in ReleaseRange(s, v, n).pages <==> w in s.pages)
    ensures w in s.pages && w in ReleaseRange(s, v, n).pages ==> ReleaseRange(s, v, n).pages[w] == s.pages[w]
    decreases n
  {
    if n > 0 {
      ReleaseRangeUnmaps(s, v, n - 1, w);
    }
  }

  lemma {:induction false} ReleaseUnmappedRange(s: Space, v: Page, n: nat)
    requires forall w :: v <= w < v + n ==> !IsMapped(s, w)
    ensures ReleaseRange(s, v, n) == s
    decreases n
  {
    if n > 0 {
      ReleaseUnmappedRange(s, v, n - 1);
    }
  }

  /** Releasing a range twice releases each backing frame at most once. */
  lemma {:induction false} DoubleReleaseIsHarmless(s: Space, v: Page, n: nat)
    ensures ReleaseRange(ReleaseRange(s, v, n), v, n) == ReleaseRange(s, v, n)
  {
    forall w | v <= w < v + n
      ensures !IsMapped(ReleaseRange(s, v, n), w)
    {
      ReleaseRangeUnmaps(s, v, n, w);
    }
    ReleaseUnmappedRange(ReleaseRange(s, v, n), v, n);
  }

  /** `PT_free` does not undo a reservation that was never touched. */
  lemma {:induction false} ReleaseKeepsReservation(s: Space, v: Page)
    requires v in s.pages && s.pages[v].Reserved?
    ensures Release(s, v) == s
    ensures s.free != [] ==> IsMapped(Fault(Release(s, v), v), v)
  {
  }
}
