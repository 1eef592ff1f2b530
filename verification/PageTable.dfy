/**
  How the words in memory encode an address space, and what each word-level
  update of src/arch/x86_64/paging.c does to that encoding.
 */
module PageTable {
  import opened Basics
  import opened PhysicalMemory
  import opened FrameQueue
  import opened AddressSpace

  /** Nodes that have an entry in some table of the tree; the identity map's entry is not one of them. */
  ghost predicate Live(s: Space, c: Node) {
    0 < c.depth <= 4 && c != IDENTITY && Parent(c) in s.tables
  }

  /** The place in memory of the entry for `c`. */
  ghost function SlotOf(s: Space, c: Node): Slot
    requires Live(s, c)
  {
    Slot(s.tables[Parent(c)], c.number % 512)
  }

  /** The word `w` is the right entry for node `c`. */
  ghost predicate Entry(w: Word, s: Space, c: Node) {
    if c.depth < 4 then
      if c in s.tables then w.present && w.writable && !w.huge && w.address == s.tables[c] else !w.present
    else if c.number !in s.pages then
      !w.present && !w.demand
    else
      match s.pages[c.number]
      case Reserved => !w.present && w.demand
      case Mapped(f) => w.present && w.writable && w.address == f
  }

  ghost predicate Encodes(mem: Memory, s: Space) {
    forall c :: Live(s, c) ==> Entry(Read(mem, SlotOf(s, c)), s, c)
  }

  /** The tables are in frames the kernel can reach. */
  ghost predicate TablesInReach(s: Space) {
    forall n :: n in s.tables ==> s.tables[n] < REACH
  }

  /** The kernel's fields and physical memory represent the address space `s`. */
  ghost predicate Represents(mem: Memory, segs: seq<Segment>, head: Frame, tail: Frame,
                             root: Frame, identity: Frame, s: Space)
  {
    && WellFormed(s)
    && Queue(mem, segs, head, tail, s.free)
    && Encodes(mem, s)
    && TablesInReach(s)
    && root == s.tables[ROOT]
    && Read(mem, Slot(root, 0)) == EntryFor(identity)
  }

  // ------------------------------------------------------------------
  // What the kernel's operations leave alone
  // ------------------------------------------------------------------

  /** Frame numbers fit the 40-bit field of an entry. */
  ghost predicate Small(s: Space) {
    forall f :: f in s.owner ==> f < 0x100_0000_0000
  }

  /** Words are written only in frames the kernel manages, and 64-bit words stay 64-bit words. */
  ghost predicate Confined(mem: Memory, s: Space, mem': Memory) {
    && (forall x: Slot :: x.frame !in s.owner ==> Read(mem', x) == Read(mem, x))
    && (Small(s) && Bounded(mem) ==> Bounded(mem'))
  }

  /** The same, and the set of managed frames is unchanged. */
  ghost predicate Within(mem: Memory, s: Space, mem': Memory, s': Space) {
    Confined(mem, s, mem') && s'.owner.Keys == s.owner.Keys
  }

  lemma {:induction false} WithinRefl(mem: Memory, s: Space, s': Space)
    requires s'.owner.Keys == s.owner.Keys
    ensures Within(mem, s, mem, s')
  {
  }

  lemma {:induction false} WithinThen(mem: Memory, s: Space, mem1: Memory, s1: Space, mem2: Memory, s2: Space)
    requires Within(mem, s, mem1, s1) && Within(mem1, s1, mem2, s2)
    ensures Within(mem, s, mem2, s2)
  {
  }

  /** The frame backs the same page before and after. */
  ghost predicate Held(s: Space, s': Space, f: Frame) {
    f in s.owner && s.owner[f].Backing? && f in s'.owner && s'.owner[f] == s.owner[f]
  }

  /** A step of the kernel: confined to its own frames, and no word of a page that stays mapped changes. */
  ghost predicate Kept(mem: Memory, s: Space, mem': Memory, s': Space) {
    && s'.owner.Keys == s.owner.Keys
    && Confined(mem, s, mem')
    && forall x: Slot :: Held(s, s', x.frame) ==> Read(mem', x) == Read(mem, x)
  }

  lemma {:induction false} KeptRefl(mem: Memory, s: Space, s': Space)
    requires s'.owner.Keys == s.owner.Keys
    ensures Kept(mem, s, mem, s')
  {
  }

  lemma {:induction false} KeptThen(mem: Memory, s: Space, mem1: Memory, s1: Space, mem2: Memory, s2: Space)
    requires Kept(mem, s, mem1, s1) && Kept(mem1, s1, mem2, s2)
    requires forall f :: Held(s, s2, f) ==> Held(s, s1, f)
    ensures Kept(mem, s, mem2, s2)
  {
    forall x: Slot | Held(s, s2, x.frame)
      ensures Read(mem2, x) == Read(mem, x)
    {
      assert Held(s, s1, x.frame) && Held(s1, s2, x.frame);
    }
  }

  /** One word written in a frame that backs no page. */
  lemma {:induction false} WriteKept(mem: Memory, s: Space, s': Space, x: Slot, w: Word)
    requires s'.owner.Keys == s.owner.Keys && x.frame in s.owner && !Held(s, s', x.frame)
    requires Small(s) && Bounded(mem) ==> InRange(w)
    ensures Kept(mem, s, mem[x := w], s')
  {
    if Small(s) && Bounded(mem) {
      BoundedWrite(mem, x, w);
    }
  }

  lemma {:induction false} SlotsDiffer(s: Space, c: Node, d: Node)
    requires OwnsTables(s) && Live(s, c) && Live(s, d) && c != d
    ensures SlotOf(s, c) != SlotOf(s, d)
  {
    assert s.owner[s.tables[Parent(c)]] == Table(Parent(c));
    assert s.owner[s.tables[Parent(d)]] == Table(Parent(d));
    assert c.number == c.number / 512 * 512 + c.number % 512;
    assert d.number == d.number / 512 * 512 + d.number % 512;
  }

  lemma {:induction false} NotIdentitySlot(s: Space, c: Node)
    requires Tree(s) && OwnsTables(s) && Live(s, c)
    ensures SlotOf(s, c) != Slot(s.tables[ROOT], 0)
  {
    assert s.owner[s.tables[Parent(c)]] == Table(Parent(c));
    assert s.owner[s.tables[ROOT]] == Table(ROOT);
    assert c.number == c.number / 512 * 512 + c.number % 512;
  }

  /** Writes outside the table frames leave the encoding alone. */
  lemma {:induction false} EncodesFrame(mem: Memory, mem': Memory, s: Space)
    requires Encodes(mem, s)
    requires forall x: Slot, n :: n in s.tables && x.frame == s.tables[n] ==> Read(mem', x) == Read(mem, x)
    ensures Encodes(mem', s)
  {
    forall c | Live(s, c)
      ensures Entry(Read(mem', SlotOf(s, c)), s, c)
    {
      assert SlotOf(s, c).frame == s.tables[Parent(c)];
    }
  }

  ghost predicate SamePagesBut(s: Space, s': Space, v: Page) {
    && (forall u :: u != v ==> (u in s'.pages <==> u in s.pages))
    && (forall u :: u != v && u in s.pages && u in s'.pages ==> s'.pages[u] == s.pages[u])
  }

  /** A new word in one page's entry changes that page and nothing else. */
  lemma {:induction false} SetPageEntry(mem: Memory, s: Space, s': Space, v: Page, w: Word)
    requires Encodes(mem, s) && OwnsTables(s) && Live(s, Node(4, v))
    requires s'.tables == s.tables && SamePagesBut(s, s', v)
    requires Entry(w, s', Node(4, v))
    ensures Encodes(mem[SlotOf(s, Node(4, v)) := w], s')
  {
    var mem' := mem[SlotOf(s, Node(4, v)) := w];
    forall c | Live(s', c)
      ensures Entry(Read(mem', SlotOf(s', c)), s', c)
    {
      assert Live(s, c) && SlotOf(s', c) == SlotOf(s, c);
      if c != Node(4, v) {
        SlotsDiffer(s, c, Node(4, v));
      }
    }
  }

  /** Memory after a fresh frame `f` was cleared and then entered as the table `n`. */
  ghost predicate TableInstalled(mem: Memory, mem': Memory, s: Space, n: Node, f: Frame)
    requires Live(s, n)
  {
    forall x: Slot :: Read(mem', x) ==
      (if x == SlotOf(s, n) then EntryFor(f)
       else if x.frame == f && x.index < 512 then Pointer(NULL)
       else Read(mem, x))
  }

  lemma {:induction false} AddTableEncodes(mem: Memory, mem': Memory, s: Space, n: Node)
    requires Encodes(mem, s) && Tree(s) && OwnsTables(s) && s.free != []
    requires s.free[0] in s.owner && s.owner[s.free[0]] == Vacant
    requires Live(s, n) && n.depth <= 3 && n !in s.tables
    requires TableInstalled(mem, mem', s, n, s.free[0])
    ensures Encodes(mem', AddTable(s, n))
  {
    var s', f := AddTable(s, n), s.free[0];
    forall c | Live(s', c)
      ensures Entry(Read(mem', SlotOf(s', c)), s', c)
    {
      if Parent(c) == n {
        assert s.owner[s.tables[Parent(n)]] == Table(Parent(n));
        assert Read(mem', SlotOf(s', c)) == Pointer(NULL);
        assert c !in s.tables;
        assert c.depth == 4 ==> On(c.number, 3) == n;
      } else {
        assert Live(s, c) && SlotOf(s', c) == SlotOf(s, c);
        assert s.owner[s.tables[Parent(c)]] == Table(Parent(c));
        if c != n {
          SlotsDiffer(s, c, n);
        }
      }
    }
  }

  /** `PT_demand_allocate`, one level: a frame from the queue becomes the table `n`. */
  lemma {:induction false} AddTableRepresents(
    mem: Memory, segs: seq<Segment>, head: Frame, tail: Frame, root: Frame, identity: Frame,
    s: Space, n: Node, mem': Memory, segs': seq<Segment>, head': Frame, tail': Frame)
    requires Represents(mem, segs, head, tail, root, identity, s) && s.free != []
    requires Live(s, n) && n.depth <= 3 && n !in s.tables
    requires Queue(mem, segs', head', tail', s.free[1..])
    requires TableInstalled(mem, mem', s, n, s.free[0]) && s.free[0] < REACH
    ensures Represents(mem', segs', head', tail', root, identity, AddTable(s, n))
  {
    hide Tree, OwnsFree, OwnsTables, OwnsPages, Queue, Encodes, Read;
    HeadIsFree(s);
    AddTableWellFormed(s, n);
    AddTableEncodes(mem, mem', s, n);
    NotIdentitySlot(s, n);
    TableOwner(s, ROOT);
    TableOwner(s, Parent(n));
    forall x: Slot | x.frame in s.free[1..]
      ensures Read(mem', x) == Read(mem, x)
    {
      FreeOwner(s, x.frame);
    }
    QueueFrame(mem, mem', segs', head', tail', s.free[1..]);
  }

  lemma {:induction false} TableOwner(s: Space, n: Node)
    requires WellFormed(s) && (n == ROOT || n in s.tables)
    ensures n in s.tables && s.tables[n] in s.owner && s.owner[s.tables[n]] == Table(n)
  {
  }

  lemma {:induction false} FreeOwner(s: Space, f: Frame)
    requires WellFormed(s) && f in s.free
    ensures f in s.owner && s.owner[f] == Vacant && f != NULL
  {
  }

  /** No word of a frame that is free afterwards was written. */
  ghost predicate FreeWordsKept(mem: Memory, mem': Memory, s': Space) {
    forall x: Slot :: x.frame in s'.free ==> Read(mem', x) == Read(mem, x)
  }

  lemma {:induction false} InstalledKeepsFree(mem: Memory, mem': Memory, s: Space, n: Node)
    requires WellFormed(s) && s.free != [] && Live(s, n) && TableInstalled(mem, mem', s, n, s.free[0])
    ensures FreeWordsKept(mem, mem', AddTable(s, n))
  {
    hide Encodes, Tree, OwnsTables, OwnsPages;
    HeadIsFree(s);
    TableNotFree(s, Parent(n));
  }

  lemma {:induction false} EntryKeepsFree(mem: Memory, s: Space, c: Node, w: Word)
    requires WellFormed(s) && Live(s, c)
    ensures FreeWordsKept(mem, mem[SlotOf(s, c) := w], s)
  {
    hide WellFormed;
    TableNotFree(s, Parent(c));
  }

  lemma {:induction false} FreeWordsRefl(mem: Memory, s: Space)
    ensures FreeWordsKept(mem, mem, s)
  {
  }

  lemma {:induction false} FreeWordsSame(mem: Memory, mem': Memory, s: Space, s': Space)
    requires FreeWordsKept(mem, mem', s) && s'.free == s.free
    ensures FreeWordsKept(mem, mem', s')
  {
  }

  lemma {:induction false} FreeWordsThen(mem: Memory, mem1: Memory, s1: Space, mem2: Memory, s2: Space)
    requires FreeWordsKept(mem, mem1, s1) && FreeWordsKept(mem1, mem2, s2) && forall f :: f in s2.free ==> f in s1.free
    ensures FreeWordsKept(mem, mem2, s2)
  {
  }

  lemma {:induction false} PageOwner(s: Space, v: Page)
    requires WellFormed(s) && IsMapped(s, v)
    ensures s.pages[v].frame in s.owner && s.owner[s.pages[v].frame] == Backing(v)
    ensures s.pages[v].frame !in s.free && s.pages[v].frame != NULL
  {
  }

  /** The word of a page's entry is replaced while the free queue may lose its head frame. */
  lemma {:induction false} PageEntryRepresents(
    mem: Memory, segs: seq<Segment>, head: Frame, tail: Frame, root: Frame, identity: Frame,
    s: Space, s': Space, v: Page, w: Word, segs': seq<Segment>, head': Frame, tail': Frame)
    requires Represents(mem, segs, head, tail, root, identity, s) && WellFormed(s') && Live(s, Node(4, v))
    requires s'.tables == s.tables && SamePagesBut(s, s', v)
    requires forall f :: f in s'.free ==> f in s.free
    requires Queue(mem, segs', head', tail', s'.free)
    requires Entry(w, s', Node(4, v))
    ensures Represents(mem[SlotOf(s, Node(4, v)) := w], segs', head', tail', root, identity, s')
  {
    hide Tree, OwnsFree, OwnsTables, OwnsPages, Queue, Encodes;
    var slot := SlotOf(s, Node(4, v));
    var mem' := mem[slot := w];
    SetPageEntry(mem, s, s', v, w);
    NotIdentitySlot(s, Node(4, v));
    TableOwner(s, ROOT);
    TableOwner(s, Parent(Node(4, v)));
    forall x: Slot | x.frame in s'.free
      ensures Read(mem', x) == Read(mem, x)
    {
      FreeOwner(s, x.frame);
    }
    QueueFrame(mem, mem', segs', head', tail', s'.free);
  }

  /** A client's store into the frame behind a mapped page is invisible to the kernel's structures. */
  lemma {:induction false} StoreRepresents(
    mem: Memory, segs: seq<Segment>, head: Frame, tail: Frame, root: Frame, identity: Frame,
    s: Space, v: Page, index: nat, w: Word)
    requires Represents(mem, segs, head, tail, root, identity, s) && IsMapped(s, v)
    ensures Represents(mem[Slot(s.pages[v].frame, index) := w], segs, head, tail, root, identity, s)
  {
    hide WellFormed, Queue, Encodes;
    var mem' := mem[Slot(s.pages[v].frame, index) := w];
    PageOwner(s, v);
    TableOwner(s, ROOT);
    forall x: Slot, n | n in s.tables && x.frame == s.tables[n]
      ensures Read(mem', x) == Read(mem, x)
    {
      TableOwner(s, n);
    }
    EncodesFrame(mem, mem', s);
    QueueFrame(mem, mem', segs, head, tail, s.free);
  }

  /** Between `PT_free` and `MMU_free_frame` the queue is intact and does not hold the frame. */
  lemma {:induction false} DetachKeepsQueue(
    mem: Memory, segs: seq<Segment>, head: Frame, tail: Frame, root: Frame, identity: Frame,
    s: Space, v: Page, w: Word)
    requires Represents(mem, segs, head, tail, root, identity, s) && IsMapped(s, v) && Live(s, Node(4, v))
    ensures Queue(mem[SlotOf(s, Node(4, v)) := w], segs, head, tail, s.free)
    ensures s.pages[v].frame !in s.free && s.pages[v].frame != NULL
  {
    hide WellFormed, Queue, Encodes;
    var mem1 := mem[SlotOf(s, Node(4, v)) := w];
    PageOwner(s, v);
    TableOwner(s, Parent(Node(4, v)));
    forall x: Slot | x.frame in s.free
      ensures Read(mem1, x) == Read(mem, x)
    {
      FreeOwner(s, x.frame);
    }
    QueueFrame(mem, mem1, segs, head, tail, s.free);
  }

  /** `PT_free` followed by `MMU_free_frame` of the frame it returned. */
  lemma {:induction false} UnmapRepresents(
    mem: Memory, segs: seq<Segment>, head: Frame, tail: Frame, root: Frame, identity: Frame,
    s: Space, v: Page, w: Word)
    requires Represents(mem, segs, head, tail, root, identity, s) && IsMapped(s, v) && Live(s, Node(4, v))
    requires !w.present && !w.demand && s.pages[v].frame < REACH
    ensures var f := s.pages[v].frame;
            Represents(Relink(mem[SlotOf(s, Node(4, v)) := w], head, tail, f), segs,
                       if head == NULL then f else head, f, root, identity, UnmapPage(s, v))
  {
    hide Tree, OwnsFree, OwnsTables, OwnsPages, Queue, Encodes, Relink;
    var s', f := UnmapPage(s, v), s.pages[v].frame;
    var mem1 := mem[SlotOf(s, Node(4, v)) := w];
    DetachKeepsQueue(mem, segs, head, tail, root, identity, s, v, w);
    RelinkAppends(mem1, segs, head, tail, s.free, f);
    UnmapPageWellFormed(s, v);
    NotIdentitySlot(s, Node(4, v));
    SetPageEntry(mem, s, s', v, w);
    PageOwner(s, v);
    forall x: Slot, n | n in s'.tables && x.frame == s'.tables[n]
      ensures Read(Relink(mem1, head, tail, f), x) == Read(mem1, x)
    {
      TableNotFree(s, n);
    }
    EncodesFrame(mem1, Relink(mem1, head, tail, f), s');
    TableNotFree(s, ROOT);
  }

  lemma {:induction false} TableNotFree(s: Space, n: Node)
    requires WellFormed(s) && (n == ROOT || n in s.tables)
    ensures n in s.tables && s.tables[n] !in s.free
    ensures s.tables[n] in s.owner && s.owner[s.tables[n]] == Table(n)
  {
  }

  lemma {:induction false} UnmappedEntry(mem: Memory, s: Space, v: Page)
    requires Encodes(mem, s) && Live(s, Node(4, v)) && !IsMapped(s, v)
    ensures !Read(mem, SlotOf(s, Node(4, v))).present
  {
  }

  /** Setting the demand bit in the entry of an unmapped page reserves it. */
  lemma {:induction false} ReserveRepresents(
    mem: Memory, segs: seq<Segment>, head: Frame, tail: Frame, root: Frame, identity: Frame,
    s: Space, v: Page)
    requires Represents(mem, segs, head, tail, root, identity, s)
    requires Live(s, Node(4, v)) && On(v, 3) in s.tables && !IsMapped(s, v)
    ensures var slot := SlotOf(s, Node(4, v));
            Represents(mem[slot := Read(mem, slot).(demand := true)], segs, head, tail, root, identity, Reserve(s, v))
  {
    hide WellFormed, Encodes, Queue, Ancestor;
    UnmappedEntry(mem, s, v);
    ReserveWellFormed(s, v);
    PageEntryRepresents(mem, segs, head, tail, root, identity, s, Reserve(s, v), v,
                        Read(mem, SlotOf(s, Node(4, v))).(demand := true), segs, head, tail);
  }

  /** `page_fault_handler`: the frame taken from the queue is entered for the page. */
  lemma {:induction false} MapPageRepresents(
    mem: Memory, segs: seq<Segment>, head: Frame, tail: Frame, root: Frame, identity: Frame,
    s: Space, v: Page, segs': seq<Segment>, head': Frame, tail': Frame)
    requires Represents(mem, segs, head, tail, root, identity, s) && s.free != []
    requires Live(s, Node(4, v)) && v in s.pages && s.pages[v].Reserved?
    requires Queue(mem, segs', head', tail', s.free[1..])
    ensures Represents(mem[SlotOf(s, Node(4, v)) := EntryFor(s.free[0])], segs', head', tail', root, identity,
                       MapPage(s, v))
  {
    hide WellFormed, Encodes, Queue, Ancestor;
    MapPageWellFormed(s, v);
    PageEntryRepresents(mem, segs, head, tail, root, identity, s, MapPage(s, v), v, EntryFor(s.free[0]),
                        segs', head', tail');
  }

  // ------------------------------------------------------------------
  // Each update is confined
  // ------------------------------------------------------------------

  /** Frames that back a page go on backing it. */
  ghost predicate StillBacked(s: Space, s': Space) {
    forall f :: f in s.owner && s.owner[f].Backing? ==> Held(s, s', f)
  }

  lemma {:induction false} AddTableKept(mem: Memory, mem': Memory, s: Space, n: Node)
    requires WellFormed(s) && s.free != [] && Live(s, n) && n.depth <= 3 && n !in s.tables
    requires TableInstalled(mem, mem', s, n, s.free[0])
    ensures Kept(mem, s, mem', AddTable(s, n)) && StillBacked(s, AddTable(s, n))
  {
    hide Tree, OwnsFree, OwnsTables, OwnsPages, Read;
    HeadIsFree(s);
    AddTableWellFormed(s, n);
    TableOwner(s, Parent(n));
  }

  /** A page's entry lies in a table, which backs no page. */
  lemma {:induction false} EntryKept(mem: Memory, s: Space, s': Space, v: Page, w: Word)
    requires WellFormed(s) && Live(s, Node(4, v)) && s'.owner.Keys == s.owner.Keys
    requires Small(s) && Bounded(mem) ==> InRange(w)
    ensures Kept(mem, s, mem[SlotOf(s, Node(4, v)) := w], s')
  {
    hide WellFormed;
    TableOwner(s, Parent(Node(4, v)));
    WriteKept(mem, s, s', SlotOf(s, Node(4, v)), w);
  }

  lemma {:induction false} RelinkBounded(mem: Memory, head: Frame, tail: Frame, f: Frame)
    requires Bounded(mem) && f < 0x100_0000_0000
    ensures Bounded(Relink(mem, head, tail, f))
  {
    BoundedWrite(mem, Slot(tail, 0), Pointer(f));
    BoundedWrite(TailLinked(mem, head, tail, f), Slot(f, 0), Pointer(NULL));
  }

  lemma {:induction false} UnmapKept(
    mem: Memory, segs: seq<Segment>, head: Frame, tail: Frame, root: Frame, identity: Frame,
    s: Space, v: Page, w: Word)
    requires Represents(mem, segs, head, tail, root, identity, s) && IsMapped(s, v) && Live(s, Node(4, v))
    requires (Bounded(mem) ==> InRange(w)) && s.pages[v].frame < REACH
    ensures Kept(mem, s, Relink(mem[SlotOf(s, Node(4, v)) := w], head, tail, s.pages[v].frame), UnmapPage(s, v))
  {
    hide WellFormed, Queue, Encodes, Relink, Bounded;
    var s', f, mem1 := UnmapPage(s, v), s.pages[v].frame, mem[SlotOf(s, Node(4, v)) := w];
    PageOwner(s, v);
    UnmapPageWellFormed(s, v);
    EntryKept(mem, s, s', v, w);
    DetachKeepsQueue(mem, segs, head, tail, root, identity, s, v, w);
    RelinkAppends(mem1, segs, head, tail, s.free, f);
    forall x: Slot | x.frame !in s.owner || Held(s, s', x.frame)
      ensures Read(Relink(mem1, head, tail, f), x) == Read(mem1, x)
    {
      if x.frame in s.free {
        FreeOwner(s, x.frame);
      }
    }
    if Small(s) && Bounded(mem) {
      RelinkBounded(mem1, head, tail, f);
    }
  }

  /** What has been written when the freed frame itself cannot be. */
  lemma {:induction false} DetachConfined(
    mem: Memory, segs: seq<Segment>, head: Frame, tail: Frame, root: Frame, identity: Frame,
    s: Space, v: Page, w: Word)
    requires Represents(mem, segs, head, tail, root, identity, s) && IsMapped(s, v) && Live(s, Node(4, v))
    requires Bounded(mem) ==> InRange(w)
    ensures Within(mem, s, TailLinked(mem[SlotOf(s, Node(4, v)) := w], head, tail, s.pages[v].frame), s)
  {
    hide WellFormed, Queue, Encodes, Bounded;
    var f, mem1 := s.pages[v].frame, mem[SlotOf(s, Node(4, v)) := w];
    PageOwner(s, v);
    EntryKept(mem, s, s, v, w);
    if head != NULL {
      TailQueued(mem, segs, head, tail, s.free);
      FreeOwner(s, tail);
      if Small(s) && Bounded(mem) {
        BoundedWrite(mem1, Slot(tail, 0), Pointer(f));
      }
    }
  }

  /** A client's store into the frame behind a mapped page. */
  lemma {:induction false} StoreConfined(mem: Memory, s: Space, v: Page, index: nat, w: Word)
    requires WellFormed(s) && IsMapped(s, v) && InRange(w)
    ensures Confined(mem, s, mem[Slot(s.pages[v].frame, index) := w])
  {
    hide WellFormed;
    PageOwner(s, v);
    if Bounded(mem) {
      BoundedWrite(mem, Slot(s.pages[v].frame, index), w);
    }
  }

  // ------------------------------------------------------------------
  // The identity map
  // ------------------------------------------------------------------

  /** What `PT_init` writes: one P3 entry for `p2`, whose 512 entries map two megabytes each. */
  ghost predicate IdentityMap(mem: Memory, p3: Frame, p2: Frame) {
    && Read(mem, Slot(p3, 0)) == EntryFor(p2)
    && (forall i :: 0 < i < 512 ==> !Read(mem, Slot(p3, i)).present)
    && (forall i :: 0 <= i < 512 ==> Read(mem, Slot(p2, i)) == EntryFor(512 * i).(huge := true))
  }

  /** Steps confined to the kernel's frames leave the identity map alone when its two tables are not among them. */
  lemma {:induction false} IdentityKept(mem: Memory, s: Space, mem': Memory, p3: Frame, p2: Frame)
    requires IdentityMap(mem, p3, p2) && Confined(mem, s, mem') && p3 !in s.owner && p2 !in s.owner
    ensures IdentityMap(mem', p3, p2)
  {
    assert forall i: nat :: Slot(p3, i).frame == p3 && Read(mem', Slot(p3, i)) == Read(mem, Slot(p3, i));
    assert forall i: nat :: Slot(p2, i).frame == p2 && Read(mem', Slot(p2, i)) == Read(mem, Slot(p2, i));
  }

  /** The address space at boot: the first free frame is the P4 table, nothing is reserved. */
  ghost function InitialSpace(free: seq<Frame>): Space
    requires free != []
  {
    Space(free[1..], map[ROOT := free[0]], map[],
          map f | f in free :: if f == free[0] then Table(ROOT) else Vacant)
  }

  lemma {:induction false} InitialWellFormed(free: seq<Frame>)
    requires free != [] && NoDup(free) && NULL !in free
    ensures WellFormed(InitialSpace(free))
  {
    assert free == [free[0]] + free[1..];
  }

  lemma {:induction false} InitialRepresents(mem: Memory, mem': Memory, segs: seq<Segment>, head: Frame, tail: Frame,
                          identity: Frame, free: seq<Frame>)
    requires free != [] && NoDup(free) && NULL !in free && free[0] < REACH
    requires Queue(mem, segs, head, tail, free[1..])
    requires forall x: Slot :: Read(mem', x) ==
               (if x == Slot(free[0], 0) then EntryFor(identity)
                else if x.frame == free[0] && x.index < 512 then Pointer(NULL)
                else Read(mem, x))
    ensures Represents(mem', segs, head, tail, free[0], identity, InitialSpace(free))
  {
    hide WellFormed, Queue;
    var s := InitialSpace(free);
    InitialWellFormed(free);
    QueueFrame(mem, mem', segs, head, tail, free[1..]);
    forall c | Live(s, c)
      ensures Entry(Read(mem', SlotOf(s, c)), s, c)
    {
      assert Parent(c) == ROOT && c.depth == 1 && 0 < c.number < 512;
    }
  }
}
