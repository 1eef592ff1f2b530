/**
  The first half of `mmu_compute_free_segments` in src/mmu.c: RAM segments are copied into linked
  nodes, shrunk to whole pages, and unlinked when nothing is left. Lengths wrap at 64 bits, and the
  loop keeps an unlinked node as its `prev`.
 */
module RoundRam {
  import opened SubtractExclusions
  import opened KernelSections

  const WORD: nat := 0x1_0000_0000_0000_0000

  /** A node's three fields; `end` is not kept up to date everywhere. */
  datatype Item = Item(base: nat, len: nat, end: nat)

  function ToSeg(it: Item): Seg {
    Seg(it.base, it.base + it.len)
  }

  function ToSegs(items: seq<Item>): (r: seq<Seg>)
    ensures |r| == |items| && forall i :: 0 <= i < |r| ==> r[i] == ToSeg(items[i])
    decreases |items|
  {
    if items == [] then [] else [ToSeg(items[0])] + ToSegs(items[1..])
  }

  /** One RAM segment shrunk to whole pages, computed as the code does. */
  function RoundIn(r: Section): Item {
    var base := if r.base % 4096 != 0 then r.base + 4096 - (r.base + 4096) % 4096 else r.base;
    var len := (r.base + r.length - base) % WORD;
    var whole := len - len % 4096;
    Item(base, whole, (base + whole) % WORD)
  }

  /** The address lies in a page that is wholly inside the segment. */
  predicate InWholePage(r: Section, x: nat) {
    r.base <= x / 4096 * 4096 && (x / 4096 + 1) * 4096 <= r.base + r.length
  }

  predicate CoversWhole(ram: seq<Section>, x: nat)
    decreases |ram|
  {
    ram != [] && (InWholePage(ram[0], x) || CoversWhole(ram[1..], x))
  }

  /** The segment contains a page boundary, its two ends included. */
  predicate HasBoundary(r: Section) {
    (r.base + 4095) / 4096 * 4096 <= r.base + r.length
  }

  predicate Physical(r: Section) {
    r.base + r.length <= 0x10_0000_0000_0000
  }

  lemma {:induction false} RoundInFields(r: Section)
    requires Physical(r) && HasBoundary(r)
    ensures var it := RoundIn(r);
            && it.base == (r.base + 4095) / 4096 * 4096
            && it.base + it.len == (r.base + r.length) / 4096 * 4096 == it.end
  {
    var base, end := (r.base + 4095) / 4096 * 4096, r.base + r.length;
    RoundUpIsCeil(r.base);
    assert (end - base) % WORD == end - base;
    RoundDownFrom((r.base + 4095) / 4096, end);
    assert (end / 4096 * 4096) % WORD == end / 4096 * 4096;
  }

  lemma {:induction false} RoundUpIsCeil(b: nat)
    ensures (if b % 4096 != 0 then b + 4096 - (b + 4096) % 4096 else b) == (b + 4095) / 4096 * 4096
  {
  }

  lemma {:induction false} RoundDownFrom(k: nat, end: nat)
    requires 4096 * k <= end
    ensures 4096 * k + ((end - 4096 * k) - (end - 4096 * k) % 4096) == end / 4096 * 4096
  {
  }

  /** Rounding keeps exactly the whole pages of a segment that contains a page boundary. */
  lemma {:induction false} RoundInExact(r: Section, x: nat)
    requires Physical(r) && HasBoundary(r)
    ensures var it := RoundIn(r);
            && (In(ToSeg(it), x) <==> InWholePage(r, x))
            && it.end == it.base + it.len && it.base % 4096 == 0 && it.len % 4096 == 0
            && r.base <= it.base && it.base + it.len <= r.base + r.length
  {
    hide RoundIn;
    RoundInFields(r);
    var k, m := (r.base + 4095) / 4096, (r.base + r.length) / 4096;
    PageCeil(r.base, k);
    PageFloor(m, r.base + r.length);
    assert RoundIn(r) == Item(4096 * k, 4096 * m - 4096 * k, 4096 * m);
    PagesBetween(k, m, r.base, r.base + r.length, x);
  }

  lemma {:induction false} PagesBetween(k: nat, m: nat, base: nat, end: nat, x: nat)
    requires k == (base + 4095) / 4096 && m == end / 4096 && k <= m
    ensures 4096 * k <= x < 4096 * m <==> base <= x / 4096 * 4096 && (x / 4096 + 1) * 4096 <= end
    ensures (4096 * m - 4096 * k) % 4096 == 0
  {
    var p := x / 4096;
    PageFloor(k, x);
    PageFloor(m, x);
    PageCeil(base, p);
    PageFloor(p + 1, end);
    assert 4096 * m - 4096 * k == 4096 * (m - k);
  }

  lemma {:induction false} PageFloor(k: nat, x: nat)
    ensures 4096 * k <= x <==> k <= x / 4096
  {
  }

  lemma {:induction false} PageCeil(b: nat, p: nat)
    ensures b <= 4096 * p <==> (b + 4095) / 4096 <= p
  {
  }

  /** Without one the length wraps around to nearly the whole address space. */
  lemma {:induction false} RoundInWraps(r: Section)
    requires Physical(r) && !HasBoundary(r)
    ensures RoundIn(r).len == WORD - 4096
    ensures In(ToSeg(RoundIn(r)), 0x20_0000_0000_0000)
  {
    var base := RoundIn(r).base;
    assert base == (r.base + 4095) / 4096 * 4096;
    var d := base - (r.base + r.length);
    assert 0 < d < 4096;
    assert (-d) % WORD == WORD - d;
  }

  // ------------------------------------------------------------------
  // Which nodes stay linked
  // ------------------------------------------------------------------

  predicate Thin(it: Item) {
    it.len == 0
  }

  /** The nodes still reachable from a link to `items[0]`: an empty node is skipped, the one after it never. */
  function Reach(items: seq<Item>): seq<Item>
    decreases |items|
  {
    if items == [] then []
    else if !Thin(items[0]) then [items[0]] + Reach(items[1..])
    else if |items| == 1 then []
    else [items[1]] + Reach(items[2..])
  }

  predicate NoTwoThin(items: seq<Item>) {
    forall i :: 0 <= i < |items| - 1 ==> !(Thin(items[i]) && Thin(items[i + 1]))
  }

  /** The segment contains no whole page. */
  ghost predicate NoWholePage(r: Section) {
    forall x: nat :: !InWholePage(r, x)
  }

  ghost predicate NoTwoWithout(ram: seq<Section>) {
    forall i :: 0 <= i < |ram| - 1 ==> !(NoWholePage(ram[i]) && NoWholePage(ram[i + 1]))
  }

  lemma {:induction false} ThinExact(r: Section)
    requires Physical(r) && HasBoundary(r)
    ensures Thin(RoundIn(r)) <==> NoWholePage(r)
  {
    hide RoundIn, InWholePage, HasBoundary;
    var it := RoundIn(r);
    RoundInExact(r, it.base);
    forall x: nat
      ensures In(ToSeg(it), x) <==> InWholePage(r, x)
    {
      RoundInExact(r, x);
    }
  }

  lemma {:induction false} NoTwoExact(ram: seq<Section>)
    requires forall r :: r in ram ==> Physical(r) && HasBoundary(r)
    ensures NoTwoThin(RoundInAll(ram)) <==> NoTwoWithout(ram)
  {
    hide RoundIn, NoWholePage, HasBoundary, Thin;
    forall i | 0 <= i < |ram|
      ensures Thin(RoundInAll(ram)[i]) <==> NoWholePage(ram[i])
    {
      ThinExact(ram[i]);
    }
  }

  lemma {:induction false} ReachFull(items: seq<Item>)
    ensures (forall it :: it in Reach(items) ==> !Thin(it)) <==> NoTwoThin(items)
    decreases |items|
  {
    if items != [] {
      var a, rest := items[0], items[1..];
      if !Thin(a) {
        ReachFull(rest);
        assert forall it :: it in Reach(items) <==> it == a || it in Reach(rest);
        NoTwoThinCons(items);
      } else if |items| > 1 {
        var b := items[1];
        assert rest[1..] == items[2..];
        assert b in Reach(items);
        ReachFull(items[2..]);
        assert forall it :: it in Reach(items) <==> it == b || it in Reach(items[2..]);
        NoTwoThinCons(items);
        NoTwoThinCons(rest);
      }
    }
  }

  lemma {:induction false} NoTwoThinCons(items: seq<Item>)
    requires items != []
    ensures NoTwoThin(items) <==> NoTwoThin(items[1..]) && (|items| > 1 ==> !(Thin(items[0]) && Thin(items[1])))
  {
    var rest := items[1..];
    assert forall i :: 0 <= i < |rest| ==> rest[i] == items[i + 1];
    if NoTwoThin(rest) && (|items| > 1 ==> !(Thin(items[0]) && Thin(items[1]))) {
      forall i | 0 <= i < |items| - 1
        ensures !(Thin(items[i]) && Thin(items[i + 1]))
      {
        assert i > 0 ==> !(Thin(rest[i - 1]) && Thin(rest[i]));
      }
    }
  }

  /** Whatever stays linked covers the same addresses. */
  lemma {:induction false} ReachCovers(items: seq<Item>, x: nat)
    ensures Covers(ToSegs(Reach(items)), x) <==> Covers(ToSegs(items), x)
    decreases |items|
  {
    if items != [] {
      var a, rest := items[0], items[1..];
      CoversCons(ToSeg(a), ToSegs(rest), x);
      if !Thin(a) {
        ReachCovers(rest, x);
        ToSegsCons(a, Reach(rest));
        CoversCons(ToSeg(a), ToSegs(Reach(rest)), x);
      } else if |items| > 1 {
        var b := items[1];
        assert rest[1..] == items[2..] && rest == [b] + items[2..];
        ReachCovers(items[2..], x);
        ToSegsCons(b, items[2..]);
        CoversCons(ToSeg(b), ToSegs(items[2..]), x);
        ToSegsCons(b, Reach(items[2..]));
        CoversCons(ToSeg(b), ToSegs(Reach(items[2..])), x);
      }
    }
  }

  lemma {:induction false} ToSegsCons(a: Item, rest: seq<Item>)
    ensures ToSegs([a] + rest) == [ToSeg(a)] + ToSegs(rest)
  {
    assert ([a] + rest)[1..] == rest;
  }

  // ------------------------------------------------------------------
  // The whole list
  // ------------------------------------------------------------------

  function RoundInAll(ram: seq<Section>): (r: seq<Item>)
    ensures |r| == |ram| && forall i :: 0 <= i < |r| ==> r[i] == RoundIn(ram[i])
    decreases |ram|
  {
    if ram == [] then [] else [RoundIn(ram[0])] + RoundInAll(ram[1..])
  }

  /** What the two loops are for: non-empty segments that hold exactly the whole pages of RAM. */
  ghost predicate RoundedRight(ram: seq<Section>) {
    var kept := Reach(RoundInAll(ram));
    && (forall it :: it in kept ==> !Thin(it))
    && forall x :: RightPage(ram, kept, x)
  }

  ghost predicate RightPage(ram: seq<Section>, kept: seq<Item>, x: nat) {
    Covers(ToSegs(kept), x) <==> CoversWhole(ram, x)
  }

  lemma {:induction false} RoundInAllCovers(ram: seq<Section>, x: nat)
    requires forall r :: r in ram ==> Physical(r) && HasBoundary(r)
    ensures Covers(ToSegs(RoundInAll(ram)), x) <==> CoversWhole(ram, x)
    decreases |ram|
  {
    hide RoundIn, InWholePage, HasBoundary;
    if ram != [] {
      RoundInExact(ram[0], x);
      RoundInAllCovers(ram[1..], x);
      ToSegsCons(RoundIn(ram[0]), RoundInAll(ram[1..]));
      CoversCons(ToSeg(RoundIn(ram[0])), ToSegs(RoundInAll(ram[1..])), x);
    }
  }

  lemma {:induction false} NothingBeyond(ram: seq<Section>, x: nat)
    requires (forall r :: r in ram ==> Physical(r)) && 0x10_0000_0000_0000 <= x
    ensures !CoversWhole(ram, x)
    decreases |ram|
  {
    if ram != [] {
      NothingBeyond(ram[1..], x);
      assert ram[0] in ram && x < (x / 4096 + 1) * 4096;
    }
  }

  /**
    For every RAM list: shrinking leaves non-empty segments with exactly the whole pages of RAM if and only if every
    segment contains a page boundary and no two neighbours both lack a whole page.
   */
  lemma {:induction false} RoundExact(ram: seq<Section>)
    requires forall r :: r in ram ==> Physical(r)
    ensures RoundedRight(ram) <==> (forall r :: r in ram ==> HasBoundary(r)) && NoTwoWithout(ram)
  {
    hide NoTwoWithout, RoundIn, HasBoundary, Reach, NoTwoThin, CoversWhole, Covers, Physical;
    var items := RoundInAll(ram);
    ReachFull(items);
    if RoundedRight(ram) {
      forall r | r in ram
        ensures HasBoundary(r)
      {
        var x := 0x20_0000_0000_0000;
        assert RightPage(ram, Reach(items), x);
        ReachCovers(items, x);
        NothingBeyond(ram, x);
        if !HasBoundary(r) {
          RoundInWraps(r);
          var i :| 0 <= i < |ram| && ram[i] == r;
          CoversMember(ToSegs(items), ToSegs(items)[i], x);
        }
      }
    }
    if forall r :: r in ram ==> HasBoundary(r) {
      NoTwoExact(ram);
      forall x
        ensures RightPage(ram, Reach(items), x)
      {
        ReachCovers(items, x);
        RoundInAllCovers(ram, x);
      }
    }
  }

  /** A segment inside one page becomes nearly the whole address space; of two empty neighbours the second stays. */
  lemma {:induction false} RoundingGoesWrong()
    ensures RoundIn(Section(0x1100, 0x100)) == Item(0x2000, WORD - 4096, 0x1000)
    ensures var ram := [Section(0x1000, 0x800), Section(0x3000, 0x800)];
            Reach(RoundInAll(ram)) == [Item(0x3000, 0, 0x3000)] && !RoundedRight(ram)
  {
    assert (0x1200 - 0x2000) % WORD == WORD - 0xE00;
    var ram := [Section(0x1000, 0x800), Section(0x3000, 0x800)];
    var items := RoundInAll(ram);
    assert items[0] == RoundIn(ram[0]) && items[1] == RoundIn(ram[1]);
    assert RoundIn(ram[0]) == Item(0x1000, 0, 0x1000) && RoundIn(ram[1]) == Item(0x3000, 0, 0x3000);
    assert items[2..] == [];
    assert Reach(items) == [items[1]] + Reach(items[2..]);
    assert items[1] in Reach(items) && Thin(items[1]);
  }
}
