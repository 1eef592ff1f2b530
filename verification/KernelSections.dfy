/**
  The kernel's own memory at boot: `sort_kernel_section_array` of src/utils.c and
  `mmu_compute_excluded` of src/mmu.c, which turns the sorted sections into a list of
  page-aligned segments with gaps between them.
 */
module KernelSections {
  import opened SubtractExclusions

  datatype Section = Section(base: nat, length: nat)

  // ------------------------------------------------------------------
  // Sorting
  // ------------------------------------------------------------------

  ghost predicate SortedUpTo(a: seq<Section>, n: nat)
    requires n <= |a|
  {
    && (forall i, j :: 0 <= i < j < n ==> a[i].base <= a[j].base)
    && (forall i, j :: 0 <= i < n <= j < |a| ==> a[i].base <= a[j].base)
  }

  /** The same sections, each as often. */
  ghost predicate Permutation(s: seq<Section>, t: seq<Section>) {
    multiset(s) == multiset(t)
  }

  lemma {:induction false} PermutationChain(s: seq<Section>, t: seq<Section>, u: seq<Section>)
    ensures Permutation(s, s)
    ensures Permutation(s, t) && (t == u || Permutation(t, u)) ==> Permutation(s, u)
  {
  }

  /** `kernel_mmap_cmp`: negative when the first base is larger, positive when the second is. */
  function Compare(x: Section, y: Section): int {
    if x.base > y.base then -1 else if y.base > x.base then 1 else 0
  }

  /** `kernel_mmap_swp`. */
  method Swap(a: array<Section>, i: nat, j: nat)
    requires i < a.Length && j < a.Length
    modifies a
    ensures a[..] == old(a[..])[i := old(a[..])[j]][j := old(a[..])[i]]
    ensures Permutation(old(a[..]), a[..])
  {
    var temp := a[j];
    a[j] := a[i];
    a[i] := temp;
  }

  /** The inner loop of `sort`: a least element from position `i` on. */
  method LeastFrom(a: array<Section>, i: nat) returns (m: nat)
    requires i < a.Length
    ensures i <= m < a.Length && forall j :: i <= j < a.Length ==> a[..][m].base <= a[..][j].base
  {
    m := i;
    for k := i + 1 to a.Length
      invariant i <= m < a.Length && forall j :: i <= j < k ==> a[m].base <= a[j].base
    {
      if Compare(a[m], a[k]) < 0 {
        m := k;
      }
    }
  }

  /** One turn of the outer loop of `sort`. */
  method PlaceLeast(a: array<Section>, i: nat)
    requires i < a.Length && SortedUpTo(a[..], i)
    modifies a
    ensures SortedUpTo(a[..], i + 1) && Permutation(old(a[..]), a[..])
  {
    hide SortedUpTo, Permutation;
    var m := LeastFrom(a, i);
    SwapExtends(a[..], i, m);
    PermutationChain(a[..], a[..], a[..]);
    if m != i {
      Swap(a, i, m);
    } else {
      assert a[..][i := a[..][i]] == a[..];
    }
  }

  /** `sort_kernel_section_array`: selection sort in place. */
  method SortSections(a: array<Section>)
    modifies a
    ensures Permutation(old(a[..]), a[..]) && Sorted(a[..])
  {
    hide SortedUpTo, Sorted, Permutation;
    ghost var start := a[..];
    SortedEnds(start);
    PermutationChain(start, start, start);
    if a.Length <= 1 {
      return;
    }
    for i := 0 to a.Length - 1
      invariant SortedUpTo(a[..], i) && Permutation(start, a[..])
    {
      ghost var s := a[..];
      PlaceLeast(a, i);
      PermutationChain(start, s, a[..]);
    }
    SortedEnds(a[..]);
  }

  ghost predicate Sorted(a: seq<Section>) {
    forall i, j :: 0 <= i < j < |a| ==> a[i].base <= a[j].base
  }

  lemma {:induction false} SortedEnds(s: seq<Section>)
    ensures SortedUpTo(s, 0)
    ensures |s| <= 1 || SortedUpTo(s, |s| - 1) ==> Sorted(s)
  {
  }

  lemma {:induction false} SwapExtends(s: seq<Section>, i: nat, m: nat)
    requires i <= m < |s| && SortedUpTo(s, i)
    requires forall j :: i <= j < |s| ==> s[m].base <= s[j].base
    ensures SortedUpTo(s[i := s[m]][m := s[i]], i + 1)
  {
  }

  // ------------------------------------------------------------------
  // Rounding
  // ------------------------------------------------------------------

  /** A section rounded out to whole pages, computed as the code does. */
  function RoundOut(s: Section): (r: Seg)
    ensures r.base % 4096 == 0 && r.end % 4096 == 0 && r.base <= s.base && s.base + s.length <= r.end
  {
    var base := s.base - s.base % 4096;
    var len := s.length + (s.base - base);
    Seg(base, base + if len % 4096 != 0 then len + 4096 - (len + 4096) % 4096 else len)
  }

  /** Page `p` starts before the section ends and ends behind its start; a section of length zero touches the page it is inside of. */
  predicate Touches(s: Section, p: nat) {
    s.base < 4096 * (p + 1) && 4096 * p < s.base + s.length
  }

  /** Rounding takes in exactly the pages the section touches. */
  lemma {:induction false} RoundOutExact(s: Section, x: nat)
    ensures In(RoundOut(s), x) <==> Touches(s, x / 4096)
  {
    var base, off, p := s.base / 4096, s.base % 4096, x / 4096;
    var len := s.length + off;
    var pages := (len + 4095) / 4096;
    assert s.base == 4096 * base + off;
    RoundUpPages(len);
    assert RoundOut(s) == Seg(4096 * base, 4096 * (base + pages));
    assert 4096 * base <= x <==> base <= p;
    assert x < 4096 * (base + pages) <==> p < base + pages;
    assert p < base + pages <==> 4096 * (p - base) < len;
  }

  lemma {:induction false} RoundUpPages(len: nat)
    ensures (if len % 4096 != 0 then len + 4096 - (len + 4096) % 4096 else len) == 4096 * ((len + 4095) / 4096)
  {
  }

  function RoundAll(sects: seq<Section>): seq<Seg>
    decreases |sects|
  {
    if sects == [] then [] else [RoundOut(sects[0])] + RoundAll(sects[1..])
  }

  // ------------------------------------------------------------------
  // Merging
  // ------------------------------------------------------------------

  function Max(a: nat, b: nat): nat {
    if a > b then a else b
  }

  /** The merge loop from the segment `prev` on. */
  function Merge(prev: Seg, rest: seq<Seg>): seq<Seg>
    decreases |rest|
  {
    if rest == [] then [prev]
    else if prev.end < rest[0].base then [prev] + Merge(rest[0], rest[1..])
    else Merge(Seg(prev.base, Max(prev.end, rest[0].end)), rest[1..])
  }

  ghost predicate Ascending(segs: seq<Seg>)
    decreases |segs|
  {
    segs == [] || ((forall s :: s in segs[1..] ==> segs[0].base <= s.base) && Ascending(segs[1..]))
  }

  predicate Aligned(segs: seq<Seg>) {
    forall s :: s in segs ==> s.base % 4096 == 0 && s.end % 4096 == 0
  }

  /** The merged list starts at `prev.base`, has gaps, and stays aligned. */
  lemma {:induction false} MergeShape(prev: Seg, rest: seq<Seg>)
    requires Ascending([prev] + rest) && Aligned([prev] + rest) && Proper([prev] + rest)
    ensures var m := Merge(prev, rest);
            && m != [] && Gapped(m) && Aligned(m) && Proper(m) && (forall s :: s in m ==> prev.base <= s.base)
    decreases |rest|
  {
    assert ([prev] + rest)[1..] == rest;
    if rest != [] {
      var r, rest' := rest[0], rest[1..];
      assert rest == [r] + rest';
      assert forall s :: s in rest ==> s in [prev] + rest;
      if prev.end < r.base {
        MergeShape(r, rest');
        assert ([prev] + Merge(r, rest'))[1..] == Merge(r, rest');
      } else {
        var p := Seg(prev.base, Max(prev.end, r.end));
        assert ([p] + rest')[1..] == rest';
        MergeShape(p, rest');
      }
    }
  }

  /** Merging changes no address: the union is that of the input. */
  lemma {:induction false} MergeCovers(prev: Seg, rest: seq<Seg>, x: nat)
    requires Ascending([prev] + rest) && Proper([prev] + rest)
    ensures Covers(Merge(prev, rest), x) <==> In(prev, x) || Covers(rest, x)
    decreases |rest|
  {
    assert ([prev] + rest)[1..] == rest;
    if rest == [] {
      CoversCons(prev, [], x);
    } else {
      var r, rest' := rest[0], rest[1..];
      assert rest == [r] + rest';
      assert r in rest && r in [prev] + rest;
      assert forall s :: s in rest ==> s in [prev] + rest;
      CoversCons(r, rest', x);
      if prev.end < r.base {
        MergeCovers(r, rest', x);
        CoversCons(prev, Merge(r, rest'), x);
      } else {
        var p := Seg(prev.base, Max(prev.end, r.end));
        assert ([p] + rest')[1..] == rest';
        MergeCovers(p, rest', x);
      }
    }
  }

  // ------------------------------------------------------------------
  // From sections to exclusions
  // ------------------------------------------------------------------

  /** Rounding keeps the order of the bases. */
  lemma {:induction false} RoundOutMonotone(s: Section, t: Section)
    requires s.base <= t.base
    ensures RoundOut(s).base <= RoundOut(t).base
  {
    assert RoundOut(s).base == s.base / 4096 * 4096 && RoundOut(t).base == t.base / 4096 * 4096;
  }

  lemma {:induction false} RoundAllMember(sects: seq<Section>, r: Seg) returns (i: nat)
    requires r in RoundAll(sects)
    ensures i < |sects| && r == RoundOut(sects[i])
    decreases |sects|
  {
    if r == RoundOut(sects[0]) {
      i := 0;
    } else {
      var k := RoundAllMember(sects[1..], r);
      i := k + 1;
    }
  }

  lemma {:induction false} RoundAllShape(sects: seq<Section>)
    requires Sorted(sects)
    ensures Ascending(RoundAll(sects)) && Aligned(RoundAll(sects)) && Proper(RoundAll(sects))
    ensures |RoundAll(sects)| == |sects|
    decreases |sects|
  {
    hide RoundOut;
    if sects != [] {
      var first, rest := sects[0], sects[1..];
      RoundAllShape(rest);
      var m := RoundAll(sects);
      assert m[1..] == RoundAll(rest);
      assert forall s :: s in m <==> s == RoundOut(first) || s in RoundAll(rest);
      forall r | r in RoundAll(rest)
        ensures RoundOut(first).base <= r.base
      {
        var i := RoundAllMember(rest, r);
        RoundOutMonotone(first, rest[i]);
      }
    }
  }

  /** The list `mmu_compute_excluded` returns for sorted sections. */
  function Excluded(sects: seq<Section>): seq<Seg>
    requires sects != []
  {
    Merge(RoundOut(sects[0]), RoundAll(sects[1..]))
  }

  /** Page-aligned, ascending with gaps, and exactly the pages the sections touch. */
  lemma {:induction false} ExcludedExact(sects: seq<Section>)
    requires sects != [] && Sorted(sects)
    ensures Gapped(Excluded(sects)) && Aligned(Excluded(sects)) && Proper(Excluded(sects))
    ensures forall x :: Covers(Excluded(sects), x) <==> Covers(RoundAll(sects), x)
  {
    hide RoundOut, Merge, Covers, Ascending;
    RoundAllShape(sects);
    var first, rest := RoundOut(sects[0]), RoundAll(sects[1..]);
    assert RoundAll(sects) == [first] + rest;
    MergeShape(first, rest);
    forall x
      ensures Covers(Excluded(sects), x) <==> Covers(RoundAll(sects), x)
    {
      MergeCovers(first, rest, x);
      CoversCons(first, rest, x);
    }
  }

  /** Some segment holds the address or ends there. */
  ghost predicate Reaches(segs: seq<Seg>, x: nat) {
    exists s :: s in segs && s.base <= x <= s.end
  }

  lemma {:induction false} ReachesCons(s: Seg, rest: seq<Seg>, x: nat)
    ensures Reaches([s] + rest, x) <==> s.base <= x <= s.end || Reaches(rest, x)
  {
    assert s in [s] + rest && forall r :: r in rest ==> r in [s] + rest;
  }

  lemma {:induction false} MergeReaches(prev: Seg, rest: seq<Seg>, x: nat)
    requires Ascending([prev] + rest) && Proper([prev] + rest)
    ensures Reaches(Merge(prev, rest), x) <==> Reaches([prev] + rest, x)
    decreases |rest|
  {
    hide Reaches;
    assert ([prev] + rest)[1..] == rest;
    if rest == [] {
      assert [prev] + rest == [prev];
    } else {
      var r, rest' := rest[0], rest[1..];
      assert rest == [r] + rest' && r in [prev] + rest;
      assert forall s :: s in rest ==> s in [prev] + rest;
      ReachesCons(prev, rest, x);
      ReachesCons(r, rest', x);
      if prev.end < r.base {
        MergeReaches(r, rest', x);
        ReachesCons(prev, Merge(r, rest'), x);
      } else {
        var p := Seg(prev.base, Max(prev.end, r.end));
        assert ([p] + rest')[1..] == rest';
        MergeReaches(p, rest', x);
        ReachesCons(p, rest', x);
      }
    }
  }

  ghost predicate SameReach(a: seq<Seg>, b: seq<Seg>) {
    forall x :: Reaches(a, x) <==> Reaches(b, x)
  }

  /** The first segment of one list starts no later and, starting there, ends no later than that of the other. */
  lemma {:induction false} FirstAgrees(a: seq<Seg>, b: seq<Seg>)
    requires a != [] && b != [] && Gapped(a) && Gapped(b) && Aligned(a) && Aligned(b) && Proper(a) && Proper(b)
    requires SameReach(a, b)
    ensures b[0].base <= a[0].base && (b[0].base == a[0].base ==> b[0].end <= a[0].end)
  {
    assert a == [a[0]] + a[1..] && b == [b[0]] + b[1..];
    assert Reaches(a, a[0].base);
    var x: nat := a[0].end + 1;
    ReachesCons(b[0], b[1..], x);
    assert !Reaches(a, x);
  }

  /** Aligned segments with gaps between them are determined by the addresses they reach. */
  lemma {:induction false} ReachDetermines(a: seq<Seg>, b: seq<Seg>)
    requires Gapped(a) && Gapped(b) && Aligned(a) && Aligned(b) && Proper(a) && Proper(b) && SameReach(a, b)
    ensures a == b
    decreases |a|
  {
    if a == [] {
      assert b != [] ==> b[0] in b && Reaches(b, b[0].base);
    } else {
      assert a[0] in a && Reaches(a, a[0].base);
      FirstAgrees(a, b);
      FirstAgrees(b, a);
      forall x
        ensures Reaches(a[1..], x) <==> Reaches(b[1..], x)
      {
        assert a == [a[0]] + a[1..] && b == [b[0]] + b[1..];
        ReachesCons(a[0], a[1..], x);
        ReachesCons(b[0], b[1..], x);
      }
      ReachDetermines(a[1..], b[1..]);
    }
  }

  lemma {:induction false} RoundAllHas(sects: seq<Section>, s: Section)
    requires s in sects
    ensures RoundOut(s) in RoundAll(sects)
    decreases |sects|
  {
    if s != sects[0] {
      RoundAllHas(sects[1..], s);
    }
  }

  /** The rounded sections cover an address exactly when some section touches its page. */
  lemma {:induction false} RoundAllCovers(sects: seq<Section>, x: nat)
    ensures Covers(RoundAll(sects), x) <==> exists s :: s in sects && Touches(s, x / 4096)
  {
    hide RoundOut, Touches;
    if Covers(RoundAll(sects), x) {
      var r := CoversWitness(RoundAll(sects), x);
      var i := RoundAllMember(sects, r);
      RoundOutExact(sects[i], x);
    }
    if s :| s in sects && Touches(s, x / 4096) {
      RoundOutExact(s, x);
      RoundAllHas(sects, s);
      CoversMember(RoundAll(sects), RoundOut(s), x);
    }
  }

  lemma {:induction false} SameSectionsReach(s: seq<Section>, t: seq<Section>, x: nat)
    requires (forall m :: m in s ==> m in t) && Reaches(RoundAll(s), x)
    ensures Reaches(RoundAll(t), x)
  {
    hide RoundOut;
    var r :| r in RoundAll(s) && r.base <= x <= r.end;
    var i := RoundAllMember(s, r);
    RoundAllHas(t, s[i]);
  }

  /** The exclusions do not depend on the order in which the sections come, nor on how sorting breaks ties. */
  lemma {:induction false} ExcludedUnique(s: seq<Section>, t: seq<Section>)
    requires s != [] && t != [] && Sorted(s) && Sorted(t) && forall m :: m in s <==> m in t
    ensures Excluded(s) == Excluded(t)
  {
    hide RoundOut, Merge, Reaches, Ascending, Gapped, Sorted;
    ExcludedExact(s);
    ExcludedExact(t);
    forall x
      ensures Reaches(Excluded(s), x) <==> Reaches(Excluded(t), x)
    {
      ExcludedReaches(s, x);
      ExcludedReaches(t, x);
      if Reaches(RoundAll(s), x) {
        SameSectionsReach(s, t, x);
      }
      if Reaches(RoundAll(t), x) {
        SameSectionsReach(t, s, x);
      }
    }
    ReachDetermines(Excluded(s), Excluded(t));
  }

  lemma {:induction false} ExcludedReaches(sects: seq<Section>, x: nat)
    requires sects != [] && Sorted(sects)
    ensures Reaches(Excluded(sects), x) <==> Reaches(RoundAll(sects), x)
  {
    hide RoundOut, Merge, Reaches, Ascending;
    RoundAllShape(sects);
    var first, rest := RoundOut(sects[0]), RoundAll(sects[1..]);
    assert RoundAll(sects) == [first] + rest;
    MergeReaches(first, rest, x);
  }

  lemma {:induction false} PermutationMembers(s: seq<Section>, t: seq<Section>)
    requires Permutation(s, t)
    ensures forall m :: m in s <==> m in t
    ensures |s| == |t|
  {
    assert forall m :: m in s <==> m in multiset(s);
    assert forall m :: m in t <==> m in multiset(t);
    assert |multiset(s)| == |s| && |multiset(t)| == |t|;
  }

  /** `mmu_compute_excluded`: copy and round each section, then merge neighbours in place. */
  method ComputeExcluded(sects: seq<Section>) returns (ex: seq<Seg>)
    requires sects != []
    ensures ex == Excluded(sects)
  {
    hide RoundOut;
    ex := [];
    for i := 0 to |sects|
      invariant |ex| == i && ex + RoundAll(sects[i..]) == RoundAll(sects)
    {
      ghost var before := ex;
      assert sects[i..][0] == sects[i] && sects[i..][1..] == sects[i + 1..];
      ex := ex + [RoundOut(sects[i])];
      assert before + ([RoundOut(sects[i])] + RoundAll(sects[i + 1..])) == ex + RoundAll(sects[i + 1..]);
    }
    assert sects[|sects|..] == [] && ex + [] == ex;
    assert ex[0] == RoundOut(sects[0]) && ex[1..] == RoundAll(sects[1..]);
    ex := MergeInPlace(ex);
  }

  /**
    Sorting followed by `mmu_compute_excluded`, for sections in any order: page-aligned segments, ascending with gaps,
    that cover exactly the pages touched by some section of the input.
   */
  method ExcludeSections(a: array<Section>) returns (ex: seq<Seg>)
    requires 0 < a.Length
    modifies a
    ensures Permutation(old(a[..]), a[..]) && Sorted(a[..]) && ex == Excluded(a[..])
    ensures Gapped(ex) && Aligned(ex) && Proper(ex)
    ensures forall x: nat :: Covers(ex, x) <==> exists s :: s in old(a[..]) && Touches(s, x / 4096)
  {
    hide Covers, Touches, RoundOut, Sorted, Permutation, Excluded;
    ghost var input := a[..];
    SortSections(a);
    PermutationMembers(input, a[..]);
    ex := ComputeExcluded(a[..]);
    ExcludedExact(a[..]);
    forall x: nat
      ensures Covers(ex, x) <==> exists s :: s in input && Touches(s, x / 4096)
    {
      RoundAllCovers(a[..], x);
    }
  }

  /** The segments before `prev` are final, and merging on from `prev` completes the list `target`. */
  ghost predicate Merging(ex: seq<Seg>, prev: nat, target: seq<Seg>) {
    prev < |ex| && ex[..prev] + Merge(ex[prev], ex[prev + 1..]) == target
  }

  lemma {:induction false} MergeMoves(ex: seq<Seg>, prev: nat, target: seq<Seg>)
    requires Merging(ex, prev, target) && prev + 1 < |ex| && ex[prev].end < ex[prev + 1].base
    ensures Merging(ex, prev + 1, target)
  {
    var rest := ex[prev + 1..];
    var tail := Merge(rest[0], rest[1..]);
    assert rest[0] == ex[prev + 1] && rest[1..] == ex[prev + 2..];
    assert ex[..prev] + ([ex[prev]] + tail) == (ex[..prev] + [ex[prev]]) + tail;
    assert ex[..prev + 1] == ex[..prev] + [ex[prev]];
  }

  lemma {:induction false} MergeJoins(ex: seq<Seg>, prev: nat, target: seq<Seg>)
    requires Merging(ex, prev, target) && prev + 1 < |ex| && ex[prev].end >= ex[prev + 1].base
    ensures var merged := Seg(ex[prev].base, Max(ex[prev].end, ex[prev + 1].end));
            Merging(ex[..prev] + [merged] + ex[prev + 2..], prev, target)
  {
    var rest := ex[prev + 1..];
    assert rest[0] == ex[prev + 1] && rest[1..] == ex[prev + 2..];
    var ex' := ex[..prev] + [Seg(ex[prev].base, Max(ex[prev].end, ex[prev + 1].end))] + ex[prev + 2..];
    assert ex'[..prev] == ex[..prev] && ex'[prev + 1..] == ex[prev + 2..];
  }

  lemma {:induction false} MergeEnds(list: seq<Seg>, ex: seq<Seg>, prev: nat, target: seq<Seg>)
    requires list != []
    ensures Merging(list, 0, Merge(list[0], list[1..]))
    ensures Merging(ex, prev, target) && prev + 1 == |ex| ==> ex == target
  {
    assert list[..0] == [] && [] + Merge(list[0], list[1..]) == Merge(list[0], list[1..]);
    if Merging(ex, prev, target) && prev + 1 == |ex| {
      assert ex[prev + 1..] == [] && ex == ex[..prev] + [ex[prev]];
    }
  }

  /** The last loop of `mmu_compute_excluded`: `prev` takes in its successor, which is unlinked, or moves on. */
  method MergeInPlace(list: seq<Seg>) returns (ex: seq<Seg>)
    requires list != []
    ensures ex == Merge(list[0], list[1..])
  {
    hide Merging;
    ex := list;
    var prev := 0;
    ghost var target := Merge(list[0], list[1..]);
    MergeEnds(list, ex, prev, target);
    while prev + 1 < |ex|
      invariant prev < |ex| && Merging(ex, prev, target)
      decreases |ex| - prev
    {
      var curr := prev + 1;
      if ex[prev].end < ex[curr].base {
        MergeMoves(ex, prev, target);
        prev := curr;
      } else {
        MergeJoins(ex, prev, target);
        var merged := Seg(ex[prev].base, Max(ex[prev].end, ex[curr].end));
        ex := ex[..prev] + [merged] + ex[curr + 1..];
      }
    }
    MergeEnds(list, ex, prev, target);
  }
}
