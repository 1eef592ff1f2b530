/**
  From the boot memory map to the frame allocator: the free segments computed by src/mmu.c as
  frames, and what that means for every frame the kernel ever hands out.
 */
module BootMap {
  import opened Basics
  import opened SubtractExclusions
  import opened KernelSections
  import opened RoundRam
  import opened FreeSegments
  import F = FrameQueue
  import S = AddressSpace
  import T = PageTable
  import M = Mmu
  import P = PhysicalMemory
  import H = KmallocHeap
  import K = Kmalloc

  // ------------------------------------------------------------------
  // Page 0 and frames
  // ------------------------------------------------------------------

  /** The end of `mmu_compute_free_segments`: the page at address 0 is given up. */
  function DropPageZero(segs: seq<Seg>): seq<Seg>
    requires segs != [] && segs[0].base <= segs[0].end
  {
    if segs[0].base != 0 then segs
    else if segs[0].end - segs[0].base == 4096 then segs[1..]
    else [Seg(4096, segs[0].end)] + segs[1..]
  }

  lemma {:induction false} DropPageZeroExact(segs: seq<Seg>)
    requires segs != [] && Aligned(segs) && NonEmpty(segs) && Ordered(segs)
    ensures segs[0] in segs
    ensures var d := DropPageZero(segs);
            && Aligned(d) && NonEmpty(d) && Ordered(d)
            && forall x :: Covers(d, x) <==> Covers(segs, x) && 4096 <= x
  {
    var first, rest := segs[0], segs[1..];
    var d := DropPageZero(segs);
    assert segs == [first] + rest && first in segs;
    assert forall s :: s in rest ==> s in segs;
    assert ([Seg(4096, first.end)] + rest)[1..] == rest;
    forall x
      ensures Covers(d, x) <==> Covers(segs, x) && 4096 <= x
    {
      CoversCons(first, rest, x);
      CoversCons(Seg(4096, first.end), rest, x);
      CoversAbove(rest, first.end, x);
      assert first.base == 0 ==> 4096 <= first.end;
      assert first.base != 0 ==> 4096 <= first.base;
    }
  }

  function ToFrames(segs: seq<Seg>): seq<F.Segment>
    requires Proper(segs)
    decreases |segs|
  {
    if segs == [] then []
    else [F.Segment(segs[0].base / 4096, (segs[0].end - segs[0].base) / 4096)] + ToFrames(segs[1..])
  }

  lemma {:induction false} FramesMember(base: nat, len: nat, f: nat)
    ensures f in F.Frames(base, len) <==> base <= f < base + len
    ensures NoDup(F.Frames(base, len))
    decreases len
  {
    if len > 0 {
      FramesMember(base + 1, len - 1, f);
      FramesMember(base + 1, len - 1, base);
      var rest := F.Frames(base + 1, len - 1);
      assert F.Frames(base, len) == [base] + rest;
    }
  }

  /** The allocator's frames are exactly those whose address the segments cover, each once. */
  lemma {:induction false} ToFramesExact(segs: seq<Seg>)
    requires Aligned(segs) && NonEmpty(segs) && Proper(segs) && Ordered(segs)
    ensures F.NonEmpty(ToFrames(segs)) && NoDup(F.Expand(ToFrames(segs)))
    ensures forall f: nat :: f in F.Expand(ToFrames(segs)) <==> Covers(segs, 4096 * f)
    decreases |segs|
  {
    if segs != [] {
      var s, rest := segs[0], segs[1..];
      assert s in segs && (forall t :: t in rest ==> t in segs);
      ToFramesExact(rest);
      var front := F.Frames(s.base / 4096, (s.end - s.base) / 4096);
      var back := F.Expand(ToFrames(rest));
      ToFramesCons(segs);
      forall f: nat
        ensures f in front <==> In(s, 4096 * f)
        ensures f in back ==> s.end <= 4096 * f
      {
        FramesMember(s.base / 4096, (s.end - s.base) / 4096, f);
        CoversAbove(rest, s.end, 4096 * f);
      }
      FramesMember(s.base / 4096, (s.end - s.base) / 4096, 0);
      NoDupAppend(front, back);
    }
  }

  lemma {:induction false} ToFramesCons(segs: seq<Seg>)
    requires segs != [] && Proper(segs) && Proper(segs[1..])
    requires 0 < (segs[0].end - segs[0].base) / 4096 && F.NonEmpty(ToFrames(segs[1..]))
    ensures F.NonEmpty(ToFrames(segs))
    ensures F.Expand(ToFrames(segs))
         == F.Frames(segs[0].base / 4096, (segs[0].end - segs[0].base) / 4096) + F.Expand(ToFrames(segs[1..]))
  {
    assert ToFrames(segs)[1..] == ToFrames(segs[1..]);
  }

  /** The first frame is the lowest. */
  lemma {:induction false} FirstIsLowest(segs: seq<Seg>)
    requires Aligned(segs) && NonEmpty(segs) && Proper(segs) && Ordered(segs)
    ensures forall f :: f in F.Expand(ToFrames(segs)) ==> F.Expand(ToFrames(segs))[0] <= f
  {
    hide ToFrames, F.Expand;
    ToFramesExact(segs);
    forall f | f in F.Expand(ToFrames(segs))
      ensures F.Expand(ToFrames(segs))[0] <= f
    {
      if segs == [] {
        NothingExpands();
      } else {
        LowestFrame(segs);
        CoversCons(segs[0], segs[1..], 4096 * f);
        assert segs == [segs[0]] + segs[1..] && segs[0] in segs;
        CoversAbove(segs[1..], segs[0].end, 4096 * f);
      }
    }
  }

  lemma {:induction false} NothingExpands()
    ensures F.Expand(ToFrames([])) == []
  {
  }

  lemma {:induction false} LowestFrame(segs: seq<Seg>)
    requires segs != [] && Aligned(segs) && NonEmpty(segs) && Proper(segs) && Ordered(segs)
    ensures F.Expand(ToFrames(segs)) != [] && 4096 * F.Expand(ToFrames(segs))[0] == segs[0].base
  {
    var s, rest := segs[0], segs[1..];
    assert s in segs && (forall t :: t in rest ==> t in segs);
    ToFramesExact(rest);
    ToFramesCons(segs);
  }

  // ------------------------------------------------------------------
  // The shape of the lists between the loops
  // ------------------------------------------------------------------

  /** The loop's result is aligned and in order. */
  lemma {:induction false} SubtractShape(ram: seq<Seg>, ex: seq<Seg>)
    requires Proper(ram) && Ordered(ram) && Proper(ex) && Gapped(ex) && Aligned(ram) && Aligned(ex)
    requires Subtract(ram, ex).Some?
    ensures Aligned(Subtract(ram, ex).value) && Ordered(Subtract(ram, ex).value)
    decreases |ram| + |ex|
  {
    if ram != [] && ex != [] {
      var f, e, rest, ex' := ram[0], ex[0], ram[1..], ex[1..];
      assert f in ram && e in ex;
      assert (forall r :: r in rest ==> r in ram) && (forall d :: d in ex' ==> d in ex);
      if f.base < e.base && f.end > e.base {
        var a, b := Seg(f.base, e.base), Seg(e.end, f.end);
        if f.end > e.end {
          SubtractShape(rest, ex');
          SubtractBounds(rest, ex', f.end);
          ShapeCons(b, Subtract(rest, ex').value);
          ShapeCons(a, [b] + Subtract(rest, ex').value);
          assert [a, b] + Subtract(rest, ex').value == [a] + ([b] + Subtract(rest, ex').value);
        } else {
          SubtractShape(rest, ex);
          SubtractBounds(rest, ex, f.end);
          ShapeCons(a, Subtract(rest, ex).value);
        }
      } else if f.base >= e.base && f.base < e.end {
        ShapeCons(Seg(e.end, f.end), rest);
        SubtractShape([Seg(e.end, f.end)] + rest, ex');
      } else {
        SubtractShape(rest, ex);
        SubtractBounds(rest, ex, f.end);
        ShapeCons(f, Subtract(rest, ex).value);
      }
    }
  }

  lemma {:induction false} ShapeCons(s: Seg, rest: seq<Seg>)
    requires Aligned(rest) && Ordered(rest) && s.base % 4096 == 0 && s.end % 4096 == 0
    requires forall r :: r in rest ==> s.end <= r.base
    ensures Aligned([s] + rest) && Ordered([s] + rest)
  {
    assert ([s] + rest)[1..] == rest;
  }

  /** RAM as the boot loader reports it: below 2^52, in order, without overlap. */
  ghost predicate RamInOrder(ram: seq<Section>) {
    && (forall r :: r in ram ==> Physical(r))
    && (forall i, j :: 0 <= i < j < |ram| ==> ram[i].base + ram[i].length <= ram[j].base)
  }

  /** Whole pages in order from `lo` on, with the end addresses kept up to date. */
  ghost predicate Tidy(items: seq<Item>, lo: nat) {
    && (forall it :: it in items ==> it.base % 4096 == 0 && it.len % 4096 == 0 && it.end == it.base + it.len && lo <= it.base)
    && forall i, j :: 0 <= i < j < |items| ==> items[i].base + items[i].len <= items[j].base
  }

  lemma {:induction false} RoundedTidy(ram: seq<Section>)
    requires RamInOrder(ram) && forall r :: r in ram ==> HasBoundary(r)
    ensures Tidy(RoundInAll(ram), 0)
  {
    hide RoundIn, HasBoundary, InWholePage;
    var items := RoundInAll(ram);
    forall i | 0 <= i < |ram|
      ensures var it := items[i];
              && it.base % 4096 == 0 && it.len % 4096 == 0 && it.end == it.base + it.len
              && ram[i].base <= it.base && it.base + it.len <= ram[i].base + ram[i].length
    {
      assert ram[i] in ram;
      RoundInExact(ram[i], 0);
    }
  }

  lemma {:induction false} TidyTail(items: seq<Item>, k: nat, lo: nat)
    requires Tidy(items, lo) && k < |items|
    ensures var a := items[k];
            && Tidy(items[k + 1..], a.base + a.len) && lo <= a.base
            && a.base % 4096 == 0 && a.len % 4096 == 0 && a.end == a.base + a.len
  {
    var a, rest := items[k], items[k + 1..];
    assert a in items;
    forall it | it in rest
      ensures a.base + a.len <= it.base && it in items
    {
      var j :| 0 <= j < |rest| && rest[j] == it;
      assert it == items[k + 1 + j];
    }
  }

  lemma {:induction false} ReachTidy(items: seq<Item>, lo: nat)
    requires Tidy(items, lo)
    ensures Tidy(Reach(items), lo)
    decreases |items|
  {
    hide Tidy;
    if items == [] || (|items| == 1 && Thin(items[0])) {
      TidyNil(lo);
    } else {
      var k := if !Thin(items[0]) then 0 else 1;
      var a, rest := items[k], items[k + 1..];
      TidyTail(items, k, lo);
      ReachTidy(rest, a.base + a.len);
      TidyCons(a, Reach(rest), lo);
    }
  }

  lemma {:induction false} TidyNil(lo: nat)
    ensures Tidy([], lo)
  {
  }

  lemma {:induction false} TidyCons(a: Item, rest: seq<Item>, lo: nat)
    requires Tidy(rest, a.base + a.len) && lo <= a.base
    requires a.base % 4096 == 0 && a.len % 4096 == 0 && a.end == a.base + a.len
    ensures Tidy([a] + rest, lo)
  {
    var t := [a] + rest;
    forall i, j | 0 <= i < j < |t|
      ensures t[i].base + t[i].len <= t[j].base
    {
      assert t[j] == rest[j - 1] && t[j] in rest;
      assert i > 0 ==> t[i] == rest[i - 1];
    }
  }

  lemma {:induction false} TidySegs(items: seq<Item>, lo: nat)
    requires Tidy(items, lo) && forall it :: it in items ==> !Thin(it)
    ensures var segs := ToSegs(items);
            NonEmpty(segs) && Proper(segs) && Ordered(segs) && Aligned(segs) && items == FreshAll(segs)
    decreases |items|
  {
    hide Tidy, FreshAll, Ordered, Aligned, ToSegs;
    if items == [] {
      NoSegs();
    } else {
      var a, rest := items[0], items[1..];
      assert a in items && items == [a] + rest;
      TidyTail(items, 0, lo);
      TidySegs(rest, a.base + a.len);
      ToSegsCons(a, rest);
      SegsAbove(rest, a.base + a.len);
      ShapeCons(ToSeg(a), ToSegs(rest));
      FreshCons(ToSeg(a), ToSegs(rest));
    }
  }

  lemma {:induction false} NoSegs()
    ensures Ordered([]) && Aligned([]) && FreshAll([]) == [] && ToSegs([]) == []
  {
  }

  lemma {:induction false} SegsAbove(items: seq<Item>, lo: nat)
    requires Tidy(items, lo)
    ensures forall s :: s in ToSegs(items) ==> lo <= s.base
  {
    forall s | s in ToSegs(items)
      ensures lo <= s.base
    {
      var j :| 0 <= j < |items| && ToSegs(items)[j] == s;
      assert items[j] in items;
    }
  }

  // ------------------------------------------------------------------
  // The whole computation
  // ------------------------------------------------------------------

  /** The page-rounded RAM list. */
  function RoundedRam(ram: seq<Section>): seq<Seg> {
    ToSegs(Reach(RoundInAll(ram)))
  }

  /**
    When both halves of the computation are right and the 32 nodes suffice; RoundExact and SubtractExact show that
    the conditions on the two halves are needed.
   */
  ghost predicate Usable(ram: seq<Section>, sects: seq<Section>) {
    && sects != [] && Sorted(sects)
    && RamInOrder(ram) && (forall r :: r in ram ==> HasBoundary(r)) && NoTwoWithout(ram)
    && (exists x: nat :: CoversWhole(ram, x))
    && Good(RoundedRam(ram), Excluded(sects))
    && |ram| + InsideCount(RoundedRam(ram), Excluded(sects)) <= 32
  }

  /** The same for sections in any order. */
  ghost predicate Bootable(ram: seq<Section>, sects: seq<Section>) {
    exists s :: Permutation(sects, s) && Usable(ram, s)
  }

  /** However the sections are sorted, the conditions hold. */
  lemma {:induction false} BootableSorted(ram: seq<Section>, sects: seq<Section>, sorted: seq<Section>)
    requires Bootable(ram, sects) && Permutation(sects, sorted) && Sorted(sorted)
    ensures Usable(ram, sorted)
  {
    hide Excluded, Good, RoundedRam, Permutation, Sorted;
    var s :| Permutation(sects, s) && Usable(ram, s);
    PermutationMembers(sects, s);
    PermutationMembers(sects, sorted);
    ExcludedUnique(s, sorted);
  }

  /** Frame `f` is a whole page of RAM, no section of the kernel touches it, and it is not the page at address 0. */
  ghost predicate FreePage(ram: seq<Section>, sects: seq<Section>, f: nat) {
    f != 0 && CoversWhole(ram, 4096 * f) && forall s :: s in sects ==> !Touches(s, f)
  }

  /** What the rounding loops leave. */
  lemma {:induction false} RamShape(ram: seq<Section>)
    requires RamInOrder(ram) && (forall r :: r in ram ==> HasBoundary(r)) && NoTwoWithout(ram)
    ensures var rr := RoundedRam(ram);
            && NonEmpty(rr) && Ordered(rr) && Proper(rr) && Aligned(rr) && Reach(RoundInAll(ram)) == FreshAll(rr)
            && forall x :: Covers(rr, x) <==> CoversWhole(ram, x)
  {
    hide Covers, CoversWhole, Ordered, Aligned, RoundIn, HasBoundary, Reach, NoTwoThin, Tidy, RamInOrder, NoTwoWithout;
    hide FreshAll, ToSegs;
    var kept := Reach(RoundInAll(ram));
    RamPhysical(ram);
    NoTwoExact(ram);
    RoundedTidy(ram);
    ReachTidy(RoundInAll(ram), 0);
    ReachFull(RoundInAll(ram));
    TidySegs(kept, 0);
    RoundExact(ram);
    forall x
      ensures Covers(RoundedRam(ram), x) <==> CoversWhole(ram, x)
    {
      assert RightPage(ram, kept, x);
    }
  }

  /** What the loops have in hand in between. */
  lemma {:induction false} UsableShape(ram: seq<Section>, sects: seq<Section>)
    requires Usable(ram, sects)
    ensures Input(RoundedRam(ram), Excluded(sects)) && Proper(RoundedRam(ram))
    ensures Aligned(RoundedRam(ram)) && Aligned(Excluded(sects))
    ensures ram != [] && Reach(RoundInAll(ram)) == FreshAll(RoundedRam(ram)) && RoundedRam(ram) != []
    ensures Correct(RoundedRam(ram), Excluded(sects))
    ensures forall x :: Covers(RoundedRam(ram), x) <==> CoversWhole(ram, x)
  {
    hide Excluded, Covers, CoversWhole, Gapped, Ordered, Aligned, Good, HasBoundary, Reach, Correct, RamInOrder;
    hide InsideCount, NoTwoWithout, RoundedRam, RoundInAll, FreshAll;
    RamShape(ram);
    ExcludedExact(sects);
    SubtractExact(RoundedRam(ram), Excluded(sects));
    var x: nat :| CoversWhole(ram, x);
    NilCoversNothing(x);
  }

  lemma {:induction false} RamPhysical(ram: seq<Section>)
    requires RamInOrder(ram)
    ensures forall r :: r in ram ==> Physical(r)
  {
  }

  /** The address where an exclusion ends is in none. */
  lemma {:induction false} EndIsFree(ex: seq<Seg>, e: Seg)
    requires Gapped(ex) && Proper(ex) && e in ex
    ensures !Covers(ex, e.end)
    decreases |ex|
  {
    var first, rest := ex[0], ex[1..];
    assert ex == [first] + rest && first in ex;
    CoversCons(first, rest, e.end);
    if e == first {
      CoversAbove(rest, e.end + 1, e.end);
    } else {
      EndIsFree(rest, e);
    }
  }

  /** A segment inside no single exclusion is not used up by all of them. */
  lemma {:induction false} SomethingLeft(r: Seg, ex: seq<Seg>) returns (x: nat)
    requires r.base < r.end && Gapped(ex) && Proper(ex)
    requires forall e :: e in ex ==> !(e.base <= r.base && r.end <= e.end)
    ensures In(r, x) && !Covers(ex, x)
  {
    x := r.base;
    if Covers(ex, r.base) {
      var e := CoversWitness(ex, r.base);
      EndIsFree(ex, e);
      x := e.end;
    }
  }

  lemma {:induction false} ResultNotEmpty(ram: seq<Seg>, ex: seq<Seg>)
    requires Input(ram, ex) && Good(ram, ex) && Correct(ram, ex) && ram != []
    ensures Subtract(ram, ex).value != []
  {
    hide Subtract, Covers, Gapped, Ordered, NoneIdle, NoneTwice;
    assert ram[0] in ram;
    var x := SomethingLeft(ram[0], ex);
    CoversMember(ram, ram[0], x);
    assert RightAt(Subtract(ram, ex).value, ram, ex, x);
    NilCoversNothing(x);
  }

  lemma {:induction false} NilCoversNothing(x: nat)
    ensures !Covers([], x) && !CoversWhole([], x)
  {
  }

  /** The frames handed to the allocator are exactly the free pages, each once. */
  lemma {:induction false} FreeFramesExact(ram: seq<Section>, sects: seq<Section>, out: seq<Seg>)
    requires Usable(ram, sects) && Subtract(RoundedRam(ram), Excluded(sects)) == Some(out)
    ensures out != [] && Proper(out) && out[0] in out && Proper(DropPageZero(out))
    ensures var segs := ToFrames(DropPageZero(out));
            && F.NonEmpty(segs) && NoDup(F.Expand(segs)) && 0 !in F.Expand(segs)
            && (forall f: nat :: f in F.Expand(segs) <==> FreePage(ram, sects, f))
            && forall f :: f in F.Expand(segs) ==> F.Expand(segs)[0] <= f
  {
    hide Subtract, Excluded, Covers, CoversWhole, Gapped, Ordered, Aligned, Good, RoundedRam, ToFrames, RoundAll, DropPageZero;
    UsableShape(ram, sects);
    var rr, ex := RoundedRam(ram), Excluded(sects);
    ResultNotEmpty(rr, ex);
    SubtractShape(rr, ex);
    DropPageZeroExact(out);
    var d := DropPageZero(out);
    ToFramesExact(d);
    FirstIsLowest(d);
    ExcludedExact(sects);
    forall f: nat
      ensures f in F.Expand(ToFrames(d)) <==> FreePage(ram, sects, f)
    {
      assert RightAt(out, rr, ex, 4096 * f);
      RoundAllCovers(sects, 4096 * f);
      assert 4096 * f / 4096 == f && (4096 <= 4096 * f) == (f != 0);
    }
  }

  /** `mmu_compute_excluded` and `mmu_compute_free_segments` from a usable boot map. */
  method ComputeFree(ram: seq<Section>, sects: seq<Section>) returns (segs: seq<F.Segment>)
    requires Usable(ram, sects)
    ensures F.NonEmpty(segs) && NoDup(F.Expand(segs)) && 0 !in F.Expand(segs)
    ensures forall f: nat :: f in F.Expand(segs) <==> FreePage(ram, sects, f)
    ensures forall f :: f in F.Expand(segs) ==> F.Expand(segs)[0] <= f
  {
    hide Subtract, Excluded, Covers, CoversWhole, Gapped, Ordered, Aligned, Good, Work, Reach, RoundIn, FreePage;
    hide HasBoundary, NoTwoThin;
    UsableShape(ram, sects);
    var ex := ComputeExcluded(sects);
    var nodes := new Node[32](_ => Node(Item(0, 0, 0), -1));
    var head := RoundInPlace(ram, nodes);
    ghost var path0 := ForwardChain(nodes[..], |ram|, head);
    ghost var list := Items(nodes[..], path0);
    WorkIsSubtract(RoundedRam(ram), ex);
    FreshWithin(RoundedRam(ram));
    SplitsAreInside(list, RoundedRam(ram), ex);
    var removal, path := RemoveInPlace(Loop(head, -1, head, 0, |ram|, nodes[..]), ex, path0);
    var kept := ReadOff(removal.end.nodes, removal.end.head, path);
    var out := ToSegs(kept);
    FreeFramesExact(ram, sects, out);
    segs := ToFrames(DropPageZero(out));
  }

  /**
    The frame allocator never gives out a frame that holds part of the kernel or the page at address 0: whatever
    is allocated, faulted in and freed after boot, every frame that is free, holds a table or backs a page is a
    whole page of RAM outside all kernel sections.
   */
  lemma {:induction false} NoKernelFrameEver(ram: seq<Section>, sects: seq<Section>, segs: seq<F.Segment>,
                                             ops: seq<S.Op>, f: nat)
    requires NoDup(F.Expand(segs)) && 0 !in F.Expand(segs) && F.Expand(segs) != []
    requires forall g: nat :: g in F.Expand(segs) <==> FreePage(ram, sects, g)
    requires forall op :: op in ops ==> S.Managed(op.v)
    ensures S.Accounted(S.Run(T.InitialSpace(F.Expand(segs)), ops), f) <==> FreePage(ram, sects, f)
  {
    hide FreePage, S.Accounted, S.Run, S.Managed, S.WellFormed, S.Separated;
    var free := F.Expand(segs);
    var s := T.InitialSpace(free);
    T.InitialWellFormed(free);
    S.RunSeparates(s, ops);
    S.WellFormedSeparates(s);
  }

  /** Whole pages of RAM below 2^52 have frame numbers of 40 bits. */
  lemma {:induction false} FreePageSmall(ram: seq<Section>, sects: seq<Section>, f: nat)
    requires (forall r :: r in ram ==> Physical(r)) && FreePage(ram, sects, f)
    ensures f < 0x100_0000_0000
  {
    if 0x100_0000_0000 <= f {
      NothingBeyond(ram, 4096 * f);
    }
  }

  /** The tables of the identity map lie in sections of the kernel, which runs in the first gigabyte. */
  ghost predicate IdentityTables(sects: seq<Section>, p3: nat, p2: nat) {
    && p3 != p2 && p3 < P.REACH && p2 < P.REACH
    && (exists s :: s in sects && Touches(s, p3)) && (exists s :: s in sects && Touches(s, p2))
  }

  /** Some free page lies in the first gigabyte. */
  ghost predicate SomeInReach(ram: seq<Section>, sects: seq<Section>) {
    exists f: nat :: FreePage(ram, sects, f) && f < P.REACH
  }

  ghost predicate AllInReach(ram: seq<Section>, sects: seq<Section>) {
    forall f: nat :: FreePage(ram, sects, f) ==> f < P.REACH
  }

  /**
    `sort_kernel_section_array` and `MMU_init`, for kernel sections in any order: the memory manager starts with
    exactly the free pages of the boot map, and with the identity map in tables that lie in the kernel's own data. It
    does not get that far exactly when there are free pages, but none in the first gigabyte.
   */
  method Boot(contents: P.Memory, ram: seq<Section>, sects: array<Section>, p3: nat, p2: nat) returns (mmu: M.Mmu, r: int)
    requires sects.Length <= 128 ==> Bootable(ram, sects[..])
    requires IdentityTables(sects[..], p3, p2)
    modifies sects
    ensures fresh(mmu) && Permutation(old(sects[..]), sects[..])
    ensures r == 0 <==> sects.Length <= 128 && exists f: nat :: FreePage(ram, sects[..], f)
    ensures mmu.hung <==> r == 0 && !SomeInReach(ram, sects[..])
    ensures forall f: nat :: FreePage(ram, sects[..], f) <==> FreePage(ram, old(sects[..]), f)
    ensures r == 0 && !mmu.hung ==> mmu.HeapValid() && mmu.StacksValid() && mmu.identity == p3 && mmu.IdentityValid(p2)
    ensures r == 0 && !mmu.hung ==> mmu.nextHeapVaddr == M.HEAP_START && mmu.nextStackVaddr == M.STACKS_END - 8
    ensures r == 0 && !mmu.hung ==>
              T.Small(mmu.space) && forall f: nat :: f in mmu.space.owner <==> FreePage(ram, sects[..], f)
  {
    hide Usable, Bootable, Permutation, Sorted, T.Represents, T.IdentityMap, CoversWhole, Touches;
    ghost var input := sects[..];
    SortSections(sects);
    PermutationMembers(input, sects[..]);
    mmu := new M.Mmu(contents);
    if sects.Length > 128 {
      return mmu, -1;
    }
    BootableSorted(ram, input, sects[..]);
    var segs := ComputeFree(ram, sects[..]);
    assert !FreePage(ram, sects[..], p3) && !FreePage(ram, sects[..], p2);
    r := mmu.Init(segs, p3, p2);
    assert F.Expand(segs) != [] ==> F.Expand(segs)[0] in F.Expand(segs);
    UsableRam(ram, sects[..]);
    forall f: nat | FreePage(ram, sects[..], f)
      ensures f < 0x100_0000_0000
    {
      FreePageSmall(ram, sects[..], f);
    }
  }

  lemma {:induction false} UsableRam(ram: seq<Section>, sects: seq<Section>)
    requires Usable(ram, sects)
    ensures forall r :: r in ram ==> Physical(r)
  {
  }

  /** After boot, nothing but free pages was written to, and words are still words. */
  ghost predicate OnlyFreePagesWritten(ram: seq<Section>, sects: seq<Section>, booted: P.Memory, mem: P.Memory) {
    && (forall x: P.Slot :: !FreePage(ram, sects, x.frame) ==> P.Read(mem, x) == P.Read(booted, x))
    && (P.Bounded(booted) ==> P.Bounded(mem))
  }

  /** The frames in any use are the free pages, and the hardware translates the first gigabyte to itself. */
  ghost predicate InOrder(ram: seq<Section>, sects: seq<Section>, mem: P.Memory, root: P.Frame, s: S.Space) {
    && (forall f: nat :: S.Accounted(s, f) <==> FreePage(ram, sects, f))
    && forall vaddr: nat :: vaddr < 0x4000_0000 ==> M.Translate(mem, root, vaddr, 0) == Some(vaddr / 4096)
  }

  lemma {:induction false} StillInOrder(ram: seq<Section>, sects: seq<Section>, booted: P.Memory, s0: S.Space, mem: P.Memory,
                                        segs: seq<F.Segment>, head: P.Frame, tail: P.Frame, root: P.Frame,
                                        p3: P.Frame, p2: P.Frame, s: S.Space)
    requires T.IdentityMap(booted, p3, p2) && p3 !in s0.owner && p2 !in s0.owner && T.Within(booted, s0, mem, s)
    requires (forall f: nat :: f in s0.owner <==> FreePage(ram, sects, f)) && T.Represents(mem, segs, head, tail, root, p3, s)
    ensures InOrder(ram, sects, mem, root, s)
  {
    hide FreePage, T.IdentityMap, S.WellFormed, S.Accounted, M.Translate, T.Confined, T.Encodes, F.Queue;
    T.IdentityKept(booted, s0, mem, p3, p2);
    S.WellFormedSeparates(s);
    assert forall f :: f in s.owner <==> f in s0.owner.Keys;
    forall vaddr: nat | vaddr < 0x4000_0000
      ensures M.Translate(mem, root, vaddr, 0) == Some(vaddr / 4096)
    {
      M.IdentityTranslates(mem, root, p3, p2, vaddr);
    }
  }

  /**
    From boot through any run of paging operations and client stores: every frame in any use is a free page of the boot
    map, every word outside those frames is what it was after boot, every word is one of 64 bits, and the hardware
    still translates the first gigabyte to itself. With memory above the first gigabyte the run can get stuck; without
    it does not.
   */
  method BootAndRun(contents: P.Memory, ram: seq<Section>, sects: array<Section>, p3: nat, p2: nat, events: seq<M.Event>)
    returns (mmu: M.Mmu, r: int, ghost booted: P.Memory)
    requires sects.Length <= 128 ==> Bootable(ram, sects[..])
    requires IdentityTables(sects[..], p3, p2) && forall e :: e in events ==> M.ManagedEvent(e)
    modifies sects
    ensures r == 0 ==> OnlyFreePagesWritten(ram, sects[..], booted, mmu.mem)
    ensures r == 0 && !mmu.hung ==> mmu.Valid() && InOrder(ram, sects[..], mmu.mem, mmu.pageTable, mmu.space)
    ensures r == 0 && AllInReach(ram, sects[..]) ==> !mmu.hung
  {
    hide Bootable, FreePage, T.IdentityMap, M.ManagedEvent, T.Represents, Permutation, S.RunReaches, T.Small, IdentityTables;
    mmu, r := Boot(contents, ram, sects, p3, p2);
    booted := mmu.mem;
    if r == 0 && !mmu.hung {
      ghost var s0 := mmu.space;
      SmallRun(mmu.mem, mmu.freeSegments, mmu.freePageHead, mmu.freePageTail, mmu.pageTable, p3, s0, events);
      mmu.Execute(events);
      if !mmu.hung {
        StillInOrder(ram, sects[..], booted, s0, mmu.mem, mmu.freeSegments, mmu.freePageHead, mmu.freePageTail,
                     mmu.pageTable, p3, p2, mmu.space);
      }
    }
  }

  lemma {:induction false} SmallRun(mem: P.Memory, segs: seq<F.Segment>, head: P.Frame, tail: P.Frame, root: P.Frame,
                                    identity: P.Frame, s: S.Space, events: seq<M.Event>)
    requires T.Represents(mem, segs, head, tail, root, identity, s) && forall e :: e in events ==> M.ManagedEvent(e)
    ensures (forall f :: f in s.owner ==> f < P.REACH) ==> S.RunReaches(s, M.Operations(events))
  {
    hide S.WellFormed, S.RunReaches, T.Encodes, F.Queue, S.Managed;
    ManagedOperations(events);
    if forall f :: f in s.owner ==> f < P.REACH {
      S.SmallRunReaches(s, M.Operations(events));
    }
  }

  lemma {:induction false} ManagedOperations(events: seq<M.Event>)
    requires forall e :: e in events ==> M.ManagedEvent(e)
    ensures forall op :: op in M.Operations(events) ==> S.Managed(op.v)
    decreases |events|
  {
    hide S.Managed;
    if events != [] {
      assert events[0] in events && forall e :: e in events[1..] ==> e in events;
      ManagedOperations(events[1..]);
    }
  }

  /**
    The same for `kmalloc` and its clients: from boot through any run of allocations, frees and stores, only free pages
    of the boot map are written to, every frame in any use is one of them, and the identity map stands.
   */
  method BootAndMalloc(contents: P.Memory, ram: seq<Section>, sects: array<Section>, p3: nat, p2: nat, ops: seq<H.Op>)
    returns (mmu: M.Mmu, r: int, heap: K.KernelHeap?, rets: seq<nat>, ghost booted: P.Memory)
    requires sects.Length <= 128 ==> Bootable(ram, sects[..])
    requires IdentityTables(sects[..], p3, p2) && H.AllowedRun(H.EMPTY, ops)
    modifies sects
    ensures heap != null <==> r == 0 && SomeInReach(ram, sects[..])
    ensures r == 0 ==> OnlyFreePagesWritten(ram, sects[..], booted, mmu.mem)
    ensures r == 0 && !mmu.hung ==> mmu.Valid() && InOrder(ram, sects[..], mmu.mem, mmu.pageTable, mmu.space)
    ensures r == 0 && AllInReach(ram, sects[..]) ==> !mmu.hung
    ensures heap != null ==> heap.mmu == mmu && (heap.hung ==> heap.Stopped())
    ensures heap != null && !heap.hung ==> heap.Valid() && heap.heap == H.Run(H.EMPTY, ops)
    ensures heap != null && !heap.hung ==> rets == H.Returns(H.EMPTY, ops) && heap.heap.live == H.Held(map[], ops, rets)
  {
    hide Bootable, FreePage, T.IdentityMap, T.Represents, Permutation, T.Small, K.Represents, K.Retained, IdentityTables;
    mmu, r := Boot(contents, ram, sects, p3, p2);
    booted, heap, rets := mmu.mem, null, [];
    if r == 0 && !mmu.hung {
      ghost var s0 := mmu.space;
      heap := new K.KernelHeap(mmu);
      rets := heap.Execute(ops);
      if !mmu.hung {
        StillInOrder(ram, sects[..], booted, s0, mmu.mem, mmu.freeSegments, mmu.freePageHead, mmu.freePageTail,
                     mmu.pageTable, p3, p2, mmu.space);
      }
    }
  }

  // ------------------------------------------------------------------
  // A machine with memory above the first gigabyte
  // ------------------------------------------------------------------

  /** A megabyte and a page below the first gigabyte, 256 megabytes above it, and a kernel that leaves one page below. */
  const HIGH_RAM: seq<Section> := [Section(0x10_0000, 0x10_1000), Section(0x4000_0000, 0x1000_0000)]
  const HIGH_SECTS: seq<Section> := [Section(0x10_0000, 0x10_0000)]
  const HIGH_ROUNDED: seq<Seg> := [Seg(0x10_0000, 0x20_1000), Seg(0x4000_0000, 0x5000_0000)]
  const HIGH_FREE: seq<Seg> := [Seg(0x20_0000, 0x20_1000), Seg(0x4000_0000, 0x5000_0000)]

  lemma {:induction false} HighRounded()
    ensures Reach(RoundInAll(HIGH_RAM)) != [] && RoundedRam(HIGH_RAM) == HIGH_ROUNDED
  {
    var items := RoundInAll(HIGH_RAM);
    assert items == [RoundIn(HIGH_RAM[0]), RoundIn(HIGH_RAM[1])];
    assert RoundIn(HIGH_RAM[0]) == Item(0x10_0000, 0x10_1000, 0x20_1000);
    assert RoundIn(HIGH_RAM[1]) == Item(0x4000_0000, 0x1000_0000, 0x5000_0000);
    assert items[1..] == [items[1]] && items[1..][1..] == [];
    assert Reach(items[1..]) == [items[1]] + Reach([]);
    assert Reach(items) == [items[0]] + Reach(items[1..]) == items;
  }

  lemma {:induction false} HighExcluded()
    ensures Sorted(HIGH_SECTS) && Excluded(HIGH_SECTS) == [Seg(0x10_0000, 0x20_0000)]
  {
    hide RoundOut;
    RoundOutMegabyte();
    assert HIGH_SECTS[1..] == [];
  }

  lemma {:induction false} RoundOutMegabyte()
    ensures RoundOut(Section(0x10_0000, 0x10_0000)) == Seg(0x10_0000, 0x20_0000)
  {
    assert 0x10_0000 % 4096 == 0;
  }

  lemma {:induction false} HighInOrder()
    ensures RamInOrder(HIGH_RAM) && (forall r :: r in HIGH_RAM ==> HasBoundary(r))
  {
  }

  lemma {:induction false} HighWhole()
    ensures NoTwoWithout(HIGH_RAM) && CoversWhole(HIGH_RAM, 0x10_0000)
  {
    assert InWholePage(HIGH_RAM[0], 0x10_0000);
  }

  lemma {:induction false} HighGood()
    ensures Good(HIGH_ROUNDED, [Seg(0x10_0000, 0x20_0000)]) && InsideCount(HIGH_ROUNDED, [Seg(0x10_0000, 0x20_0000)]) == 0
  {
    hide Needed, EndsInside, Meets;
    assert [Seg(0x10_0000, 0x20_0000)][1..] == [];
  }

  lemma {:induction false} HighUsable()
    ensures Usable(HIGH_RAM, HIGH_SECTS)
  {
    hide RamInOrder, HasBoundary, NoTwoWithout, CoversWhole, Good, InsideCount, RoundedRam, Excluded, Sorted;
    HighInOrder();
    HighWhole();
    HighRounded();
    HighExcluded();
    HighGood();
  }

  lemma {:induction false} HighSubtract()
    ensures Subtract(HIGH_ROUNDED, [Seg(0x10_0000, 0x20_0000)]) == Some(HIGH_FREE)
    ensures Proper(HIGH_FREE) && DropPageZero(HIGH_FREE) == HIGH_FREE
    ensures ToFrames(HIGH_FREE) == [F.Segment(0x200, 1), F.Segment(0x4_0000, 0x1_0000)]
  {
    assert [Seg(0x10_0000, 0x20_0000)][1..] == [] && [Seg(0x20_0000, 0x20_1000)] + HIGH_ROUNDED[1..] == HIGH_FREE;
    var rest := HIGH_FREE[1..];
    assert rest == [Seg(0x4000_0000, 0x5000_0000)] && rest[1..] == [];
    assert ToFrames(rest) == [F.Segment(0x4_0000, 0x1_0000)] + ToFrames(rest[1..]);
  }

  /** The frames of that machine, in the order they are handed out. */
  lemma {:induction false} HighFrames(segs: seq<F.Segment>)
    requires segs == [F.Segment(0x200, 1), F.Segment(0x4_0000, 0x1_0000)]
    ensures 2 <= |F.Expand(segs)| && F.Expand(segs)[0] == 0x200 && F.Expand(segs)[1] == 0x4_0000
  {
    var rest := segs[1..];
    assert F.Frames(0x200, 1) == [0x200] + F.Frames(0x201, 0) == [0x200];
    assert F.Frames(0x4_0000, 0x1_0000) == [0x4_0000] + F.Frames(0x4_0001, 0xFFFF);
    assert F.Expand(rest) == F.Frames(0x4_0000, 0x1_0000) + F.Expand(rest[1..]);
  }

  /**
    A boot map both loops handle: the P4 table goes into the last page below the first gigabyte, and then no page can
    be demand-allocated, because the frame for its first table cannot be cleared.
   */
  lemma {:induction false} HighMemoryHangs(v: S.Page)
    requires S.Managed(v)
    ensures Usable(HIGH_RAM, HIGH_SECTS) && IdentityTables(HIGH_SECTS, 0x100, 0x101)
    ensures Subtract(RoundedRam(HIGH_RAM), Excluded(HIGH_SECTS)) == Some(HIGH_FREE)
    ensures Proper(HIGH_FREE) && F.Expand(ToFrames(DropPageZero(HIGH_FREE))) != []
    ensures !S.Reaches(T.InitialSpace(F.Expand(ToFrames(DropPageZero(HIGH_FREE)))), S.DemandOp(v))
  {
    hide Subtract, F.Expand, Excluded, RoundedRam, ToFrames, DropPageZero, Usable;
    HighUsable();
    HighRounded();
    HighExcluded();
    HighSubtract();
    var segs := ToFrames(DropPageZero(HIGH_FREE));
    HighFrames(segs);
    assert HIGH_SECTS[0] in HIGH_SECTS && Touches(HIGH_SECTS[0], 0x100) && Touches(HIGH_SECTS[0], 0x101);
    var s := T.InitialSpace(F.Expand(segs));
    assert s.free[0] == 0x4_0000 && S.On(v, 1) !in s.tables;
  }
}
