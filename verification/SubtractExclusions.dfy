/**
  The loop of `mmu_compute_free_segments` that removes the kernel's segments from RAM, as a
  function on lists, and exactly when it does what it is for.
 */
module SubtractExclusions {
  import opened Basics

  /** The addresses from `base` up to but not including `end`. */
  datatype Seg = Seg(base: nat, end: nat)

  predicate In(s: Seg, x: nat) {
    s.base <= x < s.end
  }

  predicate Covers(segs: seq<Seg>, x: nat)
    decreases |segs|
  {
    segs != [] && (In(segs[0], x) || Covers(segs[1..], x))
  }

  /** The two share an address. */
  predicate Meets(a: Seg, b: Seg) {
    a.base < a.end && b.base < b.end && a.base < b.end && b.base < a.end
  }

  predicate NonEmpty(segs: seq<Seg>) {
    forall s :: s in segs ==> s.base < s.end
  }

  predicate Proper(segs: seq<Seg>) {
    forall s :: s in segs ==> s.base <= s.end
  }

  /** Ascending and disjoint; neighbours may touch. */
  predicate Ordered(segs: seq<Seg>)
    decreases |segs|
  {
    segs == [] || ((forall s :: s in segs[1..] ==> segs[0].end <= s.base) && Ordered(segs[1..]))
  }

  /** Ascending with a gap between neighbours. */
  predicate Gapped(segs: seq<Seg>)
    decreases |segs|
  {
    segs == [] || ((forall s :: s in segs[1..] ==> segs[0].end < s.base) && Gapped(segs[1..]))
  }

  function Prepend(front: seq<Seg>, rest: Option<seq<Seg>>): Option<seq<Seg>> {
    if rest.None? then None else Some(front + rest.value)
  }

  /**
    The loop, from free segment `ram[0]` and exclusion `ex[0]` on. `None` is the loop that never ends:
    a free segment that starts inside an exclusion and ends before it is unlinked but never left. A
    segment cut off behind an exclusion keeps no end address, so the loop passes over it.
   */
  function Subtract(ram: seq<Seg>, ex: seq<Seg>): Option<seq<Seg>>
    decreases |ram| + |ex|
  {
    if ram == [] || ex == [] then Some(ram)
    else
      var f, e := ram[0], ex[0];
      if f.base < e.base && f.end > e.base then
        if f.end > e.end then Prepend([Seg(f.base, e.base), Seg(e.end, f.end)], Subtract(ram[1..], ex[1..]))
        else Prepend([Seg(f.base, e.base)], Subtract(ram[1..], ex))
      else if f.base >= e.base && f.base < e.end then
        if f.end < e.end then None
        else Subtract([Seg(e.end, f.end)] + ram[1..], ex[1..])
      else Prepend([f], Subtract(ram[1..], ex))
  }

  /** The result is right about the address `x`. */
  ghost predicate RightAt(out: seq<Seg>, ram: seq<Seg>, ex: seq<Seg>, x: nat) {
    Covers(out, x) <==> Covers(ram, x) && !Covers(ex, x)
  }

  /** What the loop is for: it ends, leaves no empty segment, and keeps exactly the RAM outside the exclusions. */
  ghost predicate Correct(ram: seq<Seg>, ex: seq<Seg>) {
    var r := Subtract(ram, ex);
    && r.Some?
    && NonEmpty(r.value)
    && forall x :: RightAt(r.value, ram, ex, x)
  }

  /** No RAM segment lies inside an exclusion. */
  ghost predicate NoneSwallowed(ram: seq<Seg>, ex: seq<Seg>) {
    forall r, e :: r in ram && e in ex ==> !(e.base <= r.base && r.end <= e.end)
  }

  ghost predicate EndsInside(ram: seq<Seg>, d: Seg) {
    exists q :: q in ram && q.base < d.end < q.end
  }

  /** An exclusion followed by one that meets RAM ends in the middle of a RAM segment. */
  ghost predicate NoneIdle(ram: seq<Seg>, ex: seq<Seg>) {
    forall d, e, r :: d in ex && e in ex && r in ram && d.end < e.base && Meets(e, r) ==> EndsInside(ram, d)
  }

  /** Exclusion `e` or one behind it meets RAM, so the loop has to get as far as `e`. */
  ghost predicate Needed(ram: seq<Seg>, ex: seq<Seg>, e: Seg) {
    exists k, r :: k in ex && r in ram && (k == e || e.end < k.base) && Meets(k, r)
  }

  /** No RAM segment has one exclusion in its interior and then another one that is needed. */
  ghost predicate NoneTwice(ram: seq<Seg>, ex: seq<Seg>) {
    forall r, d, e :: r in ram && d in ex && e in ex && d.end < e.base && r.base < d.base && e.base < r.end ==>
      !Needed(ram, ex, e)
  }

  ghost predicate Good(ram: seq<Seg>, ex: seq<Seg>) {
    NoneSwallowed(ram, ex) && NoneIdle(ram, ex) && NoneTwice(ram, ex)
  }

  /** The lists as the code builds them; a section of length zero may leave an empty exclusion. */
  ghost predicate Input(ram: seq<Seg>, ex: seq<Seg>) {
    NonEmpty(ram) && Ordered(ram) && Proper(ex) && Gapped(ex)
  }

  // ------------------------------------------------------------------
  // Lists
  // ------------------------------------------------------------------

  lemma {:induction false} CoversCons(s: Seg, rest: seq<Seg>, x: nat)
    ensures Covers([s] + rest, x) <==> In(s, x) || Covers(rest, x)
  {
    assert ([s] + rest)[1..] == rest;
  }

  /** What lies at or above `lo` covers nothing below. */
  lemma {:induction false} CoversAbove(segs: seq<Seg>, lo: nat, x: nat)
    requires forall s :: s in segs ==> lo <= s.base
    ensures Covers(segs, x) ==> lo <= x
    decreases |segs|
  {
    if segs != [] {
      CoversAbove(segs[1..], lo, x);
    }
  }

  lemma {:induction false} CoversAboveIfAny(segs: seq<Seg>, lo: nat, x: nat)
    requires forall s :: s in segs && s.base < s.end ==> lo <= s.base
    ensures Covers(segs, x) ==> lo <= x
  {
    if Covers(segs, x) {
      var s := CoversWitness(segs, x);
    }
  }

  lemma {:induction false} CoversMember(segs: seq<Seg>, s: Seg, x: nat)
    requires s in segs && In(s, x)
    ensures Covers(segs, x)
    decreases |segs|
  {
    if segs[0] != s {
      CoversMember(segs[1..], s, x);
    }
  }

  lemma {:induction false} CoversWitness(segs: seq<Seg>, x: nat) returns (s: Seg)
    requires Covers(segs, x)
    ensures s in segs && In(s, x)
    decreases |segs|
  {
    if In(segs[0], x) {
      s := segs[0];
    } else {
      s := CoversWitness(segs[1..], x);
    }
  }

  /** The loop only ever keeps addresses of RAM segments. */
  lemma {:induction false} SubtractBounds(ram: seq<Seg>, ex: seq<Seg>, lo: nat)
    requires (forall s :: s in ram ==> lo <= s.base) && Proper(ex)
    requires Subtract(ram, ex).Some?
    ensures forall s :: s in Subtract(ram, ex).value ==> lo <= s.base
    decreases |ram| + |ex|
  {
    if ram != [] && ex != [] {
      var f, e := ram[0], ex[0];
      if f.base < e.base && f.end > e.base {
        if f.end > e.end {
          SubtractBounds(ram[1..], ex[1..], lo);
        } else {
          SubtractBounds(ram[1..], ex, lo);
        }
      } else if f.base >= e.base && f.base < e.end {
        SubtractBounds([Seg(e.end, f.end)] + ram[1..], ex[1..], lo);
      } else {
        SubtractBounds(ram[1..], ex, lo);
      }
    }
  }

  // ------------------------------------------------------------------
  // What each turn of the loop does to correctness
  // ------------------------------------------------------------------

  /** The exclusion lies strictly inside the free segment. */
  predicate Splits(ram: seq<Seg>, ex: seq<Seg>) {
    ram != [] && ex != [] && ram[0].base < ex[0].base && ram[0].end > ex[0].end
  }

  lemma {:induction false} SplitAt(ram: seq<Seg>, ex: seq<Seg>, out: seq<Seg>, x: nat)
    requires Input(ram, ex) && Splits(ram, ex) && Subtract(ram[1..], ex[1..]) == Some(out)
    ensures var out' := [Seg(ram[0].base, ex[0].base), Seg(ex[0].end, ram[0].end)] + out;
            && (x >= ram[0].end ==> (RightAt(out', ram, ex, x) <==> RightAt(out, ram[1..], ex[1..], x)))
            && (x < ram[0].end ==> RightAt(out, ram[1..], ex[1..], x))
            && (x < ram[0].end ==> (RightAt(out', ram, ex, x) <==> !(In(ram[0], x) && Covers(ex[1..], x))))
  {
    var f, e := ram[0], ex[0];
    var a, b := Seg(f.base, e.base), Seg(e.end, f.end);
    assert [a, b] + out == [a] + ([b] + out);
    CoversCons(a, [b] + out, x);
    CoversCons(b, out, x);
    SubtractBounds(ram[1..], ex[1..], f.end);
    CoversAbove(out, f.end, x);
    CoversAbove(ram[1..], f.end, x);
    CoversAbove(ex[1..], e.end + 1, x);
  }

  lemma {:induction false} GappedHead(ex: seq<Seg>, d: Seg)
    requires ex != [] && Gapped(ex) && d in ex[1..]
    ensures ex[0].end < d.base
  {
  }

  /** A split is right unless a later exclusion reaches the part cut off, which the loop passes over. */
  lemma {:induction false} CorrectSplit(ram: seq<Seg>, ex: seq<Seg>)
    requires Input(ram, ex) && Splits(ram, ex)
    ensures Correct(ram, ex) <==>
              Correct(ram[1..], ex[1..]) && forall e :: e in ex[1..] && e.base < e.end ==> ram[0].end <= e.base
  {
    hide Covers, Ordered, Gapped;
    var f, e := ram[0], ex[0];
    assert e in ex;
    var rest := Subtract(ram[1..], ex[1..]);
    if rest.Some? {
      var a, b, out := Seg(f.base, e.base), Seg(e.end, f.end), rest.value;
      var out' := [a, b] + out;
      assert forall s :: s in out' <==> s == a || s == b || s in out;
      if Correct(ram, ex) {
        forall d | d in ex[1..] && d.base < d.end
          ensures f.end <= d.base
        {
          assert RightAt(out', ram, ex, d.base) && d in ex;
          GappedHead(ex, d);
          CoversMember(ex[1..], d, d.base);
          SplitAt(ram, ex, out, d.base);
        }
        forall x
          ensures RightAt(out, ram[1..], ex[1..], x)
        {
          SplitAt(ram, ex, out, x);
          assert RightAt(out', ram, ex, x);
        }
      }
      if Correct(ram[1..], ex[1..]) && forall e :: e in ex[1..] && e.base < e.end ==> ram[0].end <= e.base {
        forall x
          ensures RightAt(out', ram, ex, x)
        {
          SplitAt(ram, ex, out, x);
          CoversAboveIfAny(ex[1..], f.end, x);
          assert RightAt(out, ram[1..], ex[1..], x);
        }
      }
    }
  }

  /** A turn that keeps the part `kept` of the free segment and goes on with the rest of RAM. */
  lemma {:induction false} KeepAt(ram: seq<Seg>, ex: seq<Seg>, kept: Seg, out: seq<Seg>, x: nat)
    requires Input(ram, ex) && ram != [] && ex != [] && Subtract(ram[1..], ex) == Some(out)
    requires kept.base == ram[0].base && kept.end <= ram[0].end
    requires kept.end <= ex[0].base && (kept.end == ram[0].end || (kept.end == ex[0].base && ram[0].end <= ex[0].end))
    ensures RightAt([kept] + out, ram, ex, x) <==> RightAt(out, ram[1..], ex, x)
  {
    var f, e := ram[0], ex[0];
    CoversCons(kept, out, x);
    SubtractBounds(ram[1..], ex, f.end);
    CoversAbove(out, f.end, x);
    CoversAbove(ram[1..], f.end, x);
    CoversAbove(ex[1..], e.end, x);
  }

  lemma {:induction false} CorrectKeep(ram: seq<Seg>, ex: seq<Seg>, kept: Seg)
    requires Input(ram, ex) && ram != [] && ex != [] && kept.base < kept.end
    requires kept.base == ram[0].base && kept.end <= ram[0].end
    requires kept.end <= ex[0].base && (kept.end == ram[0].end || (kept.end == ex[0].base && ram[0].end <= ex[0].end))
    requires Subtract(ram, ex) == Prepend([kept], Subtract(ram[1..], ex))
    ensures Correct(ram, ex) <==> Correct(ram[1..], ex)
  {
    hide Covers, Ordered, Gapped, Subtract;
    var rest := Subtract(ram[1..], ex);
    if rest.Some? {
      var out := rest.value;
      assert forall s :: s in [kept] + out <==> s == kept || s in out;
      forall x
        ensures RightAt([kept] + out, ram, ex, x) <==> RightAt(out, ram[1..], ex, x)
      {
        KeepAt(ram, ex, kept, out, x);
      }
    }
  }

  /** The free segment starts inside the exclusion and reaches beyond it. */
  predicate Trims(ram: seq<Seg>, ex: seq<Seg>) {
    ram != [] && ex != [] && ex[0].base <= ram[0].base < ex[0].end < ram[0].end
  }

  lemma {:induction false} CorrectTrim(ram: seq<Seg>, ex: seq<Seg>)
    requires Input(ram, ex) && Trims(ram, ex)
    ensures var ram' := [Seg(ex[0].end, ram[0].end)] + ram[1..];
            Input(ram', ex[1..]) && (Correct(ram, ex) <==> Correct(ram', ex[1..]))
  {
    var f, e := ram[0], ex[0];
    var g := Seg(e.end, f.end);
    var ram' := [g] + ram[1..];
    assert ram'[1..] == ram[1..];
    var r := Subtract(ram', ex[1..]);
    assert Subtract(ram, ex) == r;
    if r.Some? {
      forall x
        ensures RightAt(r.value, ram, ex, x) <==> RightAt(r.value, ram', ex[1..], x)
      {
        CoversCons(g, ram[1..], x);
        CoversAbove(ram[1..], f.end, x);
        CoversAbove(ex[1..], e.end, x);
        SubtractBounds(ram', ex[1..], e.end);
        CoversAbove(r.value, e.end, x);
      }
    }
  }

  /** The free segment lies inside the exclusion. */
  predicate Swallows(ram: seq<Seg>, ex: seq<Seg>) {
    ram != [] && ex != [] && ex[0].base <= ram[0].base && ram[0].end <= ex[0].end
  }

  /** Then the loop does not end, or leaves an empty segment when the ends are equal. */
  lemma {:induction false} SwallowIsWrong(ram: seq<Seg>, ex: seq<Seg>)
    requires Input(ram, ex) && Swallows(ram, ex)
    ensures !Correct(ram, ex)
  {
    var f, e := ram[0], ex[0];
    if f.end == e.end {
      var g := Seg(e.end, e.end);
      var ram', ex' := [g] + ram[1..], ex[1..];
      assert ram'[1..] == ram[1..];
      assert Subtract(ram, ex) == Subtract(ram', ex');
      if ex' == [] {
        assert g in ram';
      } else {
        assert ex'[0] in ex[1..];
        assert Subtract(ram', ex') == Prepend([g], Subtract(ram[1..], ex'));
        if Subtract(ram[1..], ex').Some? {
          assert g in [g] + Subtract(ram[1..], ex').value;
        }
      }
    }
  }

  /** Once every free segment lies behind the current exclusion nothing more is removed. */
  lemma {:induction false} StuckKeepsAll(ram: seq<Seg>, ex: seq<Seg>)
    requires ex != [] && (forall r :: r in ram ==> ex[0].end <= r.base) && ex[0].base <= ex[0].end
    ensures Subtract(ram, ex) == Some(ram)
    decreases |ram|
  {
    if ram != [] {
      StuckKeepsAll(ram[1..], ex);
      assert ram == [ram[0]] + ram[1..];
    }
  }

  // ------------------------------------------------------------------
  // What each turn does to the condition
  // ------------------------------------------------------------------

  lemma {:induction false} Members(segs: seq<Seg>)
    requires segs != []
    ensures forall s :: s in segs <==> s == segs[0] || s in segs[1..]
  {
    assert segs == [segs[0]] + segs[1..];
  }

  /** The lists `[f] + ram` and `[e] + ex` with the order facts the proofs below need. */
  ghost predicate Heads(f: Seg, ram: seq<Seg>, e: Seg, ex: seq<Seg>) {
    && f.base < f.end && e.base <= e.end
    && (forall r :: r in ram ==> f.end <= r.base < r.end)
    && (forall d :: d in ex ==> e.end < d.base <= d.end)
  }

  lemma {:induction false} InputHeads(ram: seq<Seg>, ex: seq<Seg>)
    requires Input(ram, ex) && ram != [] && ex != []
    ensures Heads(ram[0], ram[1..], ex[0], ex[1..])
    ensures ram == [ram[0]] + ram[1..] && ex == [ex[0]] + ex[1..]
  {
    Members(ram);
    Members(ex);
  }

  lemma {:induction false} NeededMore(ram: seq<Seg>, ex: seq<Seg>, ram': seq<Seg>, ex': seq<Seg>, g: Seg)
    requires Needed(ram, ex, g) && (forall r :: r in ram ==> r in ram') && (forall d :: d in ex ==> d in ex')
    ensures Needed(ram', ex', g)
  {
  }

  /** The part cut off is beyond every later exclusion that is not empty. */
  ghost predicate CutIsLast(f: Seg, ex: seq<Seg>) {
    forall d :: d in ex && d.base < d.end ==> f.end <= d.base
  }

  lemma {:induction false} SplitSwallowed(f: Seg, ram: seq<Seg>, e: Seg, ex: seq<Seg>)
    requires Heads(f, ram, e, ex) && f.base < e.base && e.end < f.end
    ensures NoneSwallowed([f] + ram, [e] + ex) <==> NoneSwallowed(ram, ex)
  {
    assert NoneSwallowed([f] + ram, [e] + ex) ==> NoneSwallowed(ram, ex);
  }

  lemma {:induction false} SplitGoodOnly(f: Seg, ram: seq<Seg>, e: Seg, ex: seq<Seg>)
    requires Heads(f, ram, e, ex) && f.base < e.base && e.end < f.end
    requires NoneTwice([f] + ram, [e] + ex) && NoneIdle([f] + ram, [e] + ex)
    ensures CutIsLast(f, ex) && NoneTwice(ram, ex) && NoneIdle(ram, ex)
  {
    var ram', ex' := [f] + ram, [e] + ex;
    assert f in ram' && e in ex';
    assert (forall d :: d in ex ==> d in ex') && (forall r :: r in ram ==> r in ram');
    forall d | d in ex && d.base < d.end
      ensures f.end <= d.base
    {
      assert d in ex' && (Meets(d, f) ==> Needed(ram', ex', d));
    }
    forall r, d, g | r in ram && d in ex && g in ex && d.end < g.base && r.base < d.base && g.base < r.end
      ensures !Needed(ram, ex, g)
    {
      if Needed(ram, ex, g) {
        NeededMore(ram, ex, ram', ex', g);
      }
    }
    forall d, g, r | d in ex && g in ex && r in ram && d.end < g.base && Meets(g, r)
      ensures EndsInside(ram, d)
    {
      assert d in ex' && g in ex' && r in ram';
      assert EndsInside(ram', d) && Needed(ram', ex', d);
    }
  }

  lemma {:induction false} SplitTwice(f: Seg, ram: seq<Seg>, e: Seg, ex: seq<Seg>)
    requires Heads(f, ram, e, ex) && f.base < e.base && e.end < f.end
    requires CutIsLast(f, ex) && NoneTwice(ram, ex) && NoneIdle(ram, ex)
    ensures NoneTwice([f] + ram, [e] + ex)
  {
    hide Needed, NoneIdle;
    var ram', ex' := [f] + ram, [e] + ex;
    forall r, d, g | r in ram' && d in ex' && g in ex' && d.end < g.base && r.base < d.base && g.base < r.end
      ensures !Needed(ram', ex', g)
    {
      SplitNeeded(f, ram, e, ex, g);
    }
  }

  /** Behind the cut exclusion, `f` adds no need; and an exclusion inside `f` is not needed at all. */
  lemma {:induction false} SplitNeeded(f: Seg, ram: seq<Seg>, e: Seg, ex: seq<Seg>, g: Seg)
    requires Heads(f, ram, e, ex) && CutIsLast(f, ex) && NoneIdle(ram, ex) && g in ex
    ensures Needed([f] + ram, [e] + ex, g) ==> Needed(ram, ex, g) && f.end <= g.base
  {
    var ram', ex' := [f] + ram, [e] + ex;
    if k, q :| k in ex' && q in ram' && (k == g || g.end < k.base) && Meets(k, q) {
      assert k in ex && q in ram;
      assert k != g ==> EndsInside(ram, g);
    }
  }

  lemma {:induction false} SplitIdle(f: Seg, ram: seq<Seg>, e: Seg, ex: seq<Seg>)
    requires Heads(f, ram, e, ex) && f.base < e.base && e.end < f.end
    requires CutIsLast(f, ex) && NoneIdle(ram, ex)
    ensures NoneIdle([f] + ram, [e] + ex)
  {
    var ram', ex' := [f] + ram, [e] + ex;
    assert f in ram';
    forall d, g, r | d in ex' && g in ex' && r in ram' && d.end < g.base && Meets(g, r)
      ensures EndsInside(ram', d)
    {
      if d != e {
        assert g in ex && r in ram && EndsInside(ram, d);
        var q :| q in ram && q.base < d.end < q.end;
        assert q in ram';
      }
    }
  }

  lemma {:induction false} GoodSplit(ram: seq<Seg>, ex: seq<Seg>)
    requires Input(ram, ex) && Splits(ram, ex)
    ensures Good(ram, ex) <==>
              Good(ram[1..], ex[1..]) && forall e :: e in ex[1..] && e.base < e.end ==> ram[0].end <= e.base
  {
    hide Input, Heads, NoneSwallowed, NoneTwice, NoneIdle;
    InputHeads(ram, ex);
    var f, e := ram[0], ex[0];
    SplitSwallowed(f, ram[1..], e, ex[1..]);
    if Good(ram, ex) {
      SplitGoodOnly(f, ram[1..], e, ex[1..]);
    }
    if Good(ram[1..], ex[1..]) && CutIsLast(f, ex[1..]) {
      SplitTwice(f, ram[1..], e, ex[1..]);
      SplitIdle(f, ram[1..], e, ex[1..]);
    }
  }

  lemma {:induction false} KeepSwallowed(f: Seg, ram: seq<Seg>, e: Seg, ex: seq<Seg>)
    requires Heads(f, ram, e, ex) && f.base < e.base
    ensures NoneSwallowed([f] + ram, [e] + ex) <==> NoneSwallowed(ram, [e] + ex)
  {
    assert forall r :: r in ram ==> r in [f] + ram;
  }

  lemma {:induction false} KeepTwice(f: Seg, ram: seq<Seg>, e: Seg, ex: seq<Seg>)
    requires Heads(f, ram, e, ex) && f.base < e.base && f.end <= e.end
    ensures NoneTwice([f] + ram, [e] + ex) <==> NoneTwice(ram, [e] + ex)
  {
    var ram', ex' := [f] + ram, [e] + ex;
    assert forall r :: r in ram ==> r in ram';
    forall g | g in ex
      ensures Needed(ram', ex', g) <==> Needed(ram, ex', g)
    {
      if Needed(ram, ex', g) {
        NeededMore(ram, ex', ram', ex', g);
      }
    }
  }

  lemma {:induction false} KeepIdle(f: Seg, ram: seq<Seg>, e: Seg, ex: seq<Seg>)
    requires Heads(f, ram, e, ex) && f.base < e.base && f.end <= e.end
    ensures NoneIdle([f] + ram, [e] + ex) <==> NoneIdle(ram, [e] + ex)
  {
    var ram', ex' := [f] + ram, [e] + ex;
    assert forall d :: d in ex' ==> e.end <= d.end;
    if NoneIdle(ram', ex') {
      forall d, g, r | d in ex' && g in ex' && r in ram && d.end < g.base && Meets(g, r)
        ensures EndsInside(ram, d)
      {
        assert r in ram' && EndsInside(ram', d);
      }
    }
    if NoneIdle(ram, ex') {
      forall d, g, r | d in ex' && g in ex' && r in ram' && d.end < g.base && Meets(g, r)
        ensures EndsInside(ram', d)
      {
        assert r in ram && EndsInside(ram, d);
        var q :| q in ram && q.base < d.end < q.end;
        assert q in ram';
      }
    }
  }

  /** The free segment does not reach beyond the exclusion. */
  lemma {:induction false} GoodKeep(ram: seq<Seg>, ex: seq<Seg>)
    requires Input(ram, ex) && ram != [] && ex != [] && ram[0].base < ex[0].base && ram[0].end <= ex[0].end
    ensures Good(ram, ex) <==> Good(ram[1..], ex)
  {
    hide Input, Heads, NoneSwallowed, NoneTwice, NoneIdle;
    InputHeads(ram, ex);
    KeepSwallowed(ram[0], ram[1..], ex[0], ex[1..]);
    KeepTwice(ram[0], ram[1..], ex[0], ex[1..]);
    KeepIdle(ram[0], ram[1..], ex[0], ex[1..]);
  }

  lemma {:induction false} TrimSwallowed(f: Seg, ram: seq<Seg>, e: Seg, ex: seq<Seg>)
    requires Heads(f, ram, e, ex) && e.base <= f.base < e.end < f.end
    ensures NoneSwallowed([f] + ram, [e] + ex) <==> NoneSwallowed([Seg(e.end, f.end)] + ram, ex)
  {
    assert forall r :: r in ram ==> r in [f] + ram && r in [Seg(e.end, f.end)] + ram;
    assert forall d :: d in ex ==> d in [e] + ex;
  }

  lemma {:induction false} TrimTwice(f: Seg, ram: seq<Seg>, e: Seg, ex: seq<Seg>)
    requires Heads(f, ram, e, ex) && e.base <= f.base < e.end < f.end
    ensures NoneTwice([f] + ram, [e] + ex) <==> NoneTwice([Seg(e.end, f.end)] + ram, ex)
  {
    hide Needed;
    var g := Seg(e.end, f.end);
    var ramF, ramG, ex' := [f] + ram, [g] + ram, [e] + ex;
    assert f in ramF && g in ramG && (forall r :: r in ram ==> r in ramF && r in ramG);
    assert forall d :: d in ex ==> d in ex';
    if NoneTwice(ramF, ex') {
      forall r, d, k | r in ramG && d in ex && k in ex && d.end < k.base && r.base < d.base && k.base < r.end
        ensures !Needed(ramG, ex, k)
      {
        TrimNeeded(f, ram, e, ex, k);
        assert (if r == g then f else r) in ramF;
      }
    }
    if NoneTwice(ramG, ex) {
      forall r, d, k | r in ramF && d in ex' && k in ex' && d.end < k.base && r.base < d.base && k.base < r.end
        ensures !Needed(ramF, ex', k)
      {
        TrimNeeded(f, ram, e, ex, k);
        assert (if r == f then g else r) in ramG;
      }
    }
  }

  lemma {:induction false} TrimNeeded(f: Seg, ram: seq<Seg>, e: Seg, ex: seq<Seg>, k: Seg)
    requires Heads(f, ram, e, ex) && e.base <= f.base < e.end < f.end && k in ex
    ensures Needed([f] + ram, [e] + ex, k) <==> Needed([Seg(e.end, f.end)] + ram, ex, k)
  {
    var g := Seg(e.end, f.end);
    var ramF, ramG, ex' := [f] + ram, [g] + ram, [e] + ex;
    assert f in ramF && g in ramG && (forall r :: r in ram ==> r in ramF && r in ramG);
    if d, r :| d in ex' && r in ramF && (d == k || k.end < d.base) && Meets(d, r) {
      assert d in ex && Meets(d, if r == f then g else r);
    }
    if d, r :| d in ex && r in ramG && (d == k || k.end < d.base) && Meets(d, r) {
      assert d in ex' && Meets(d, if r == g then f else r);
    }
  }

  lemma {:induction false} TrimIdle(f: Seg, ram: seq<Seg>, e: Seg, ex: seq<Seg>)
    requires Heads(f, ram, e, ex) && e.base <= f.base < e.end < f.end
    ensures NoneIdle([f] + ram, [e] + ex) <==> NoneIdle([Seg(e.end, f.end)] + ram, ex)
  {
    var g := Seg(e.end, f.end);
    var ramF, ramG, ex' := [f] + ram, [g] + ram, [e] + ex;
    assert f in ramF && g in ramG;
    assert forall r :: r in ram ==> r in ramF && r in ramG;
    if NoneIdle(ramF, ex') {
      forall d, k, r | d in ex && k in ex && r in ramG && d.end < k.base && Meets(k, r)
        ensures EndsInside(ramG, d)
      {
        assert Meets(k, if r == g then f else r) && d in ex' && k in ex';
        assert EndsInside(ramF, d);
        var q :| q in ramF && q.base < d.end < q.end;
        assert EndsInside(ramG, d) by {
          assert q == f ==> g.base < d.end < g.end;
        }
      }
    }
    if NoneIdle(ramG, ex) {
      forall d, k, r | d in ex' && k in ex' && r in ramF && d.end < k.base && Meets(k, r)
        ensures EndsInside(ramF, d)
      {
        if d != e {
          assert d in ex && k in ex;
          assert Meets(k, if r == f then g else r);
          assert EndsInside(ramG, d);
          var q :| q in ramG && q.base < d.end < q.end;
          assert q == g ==> f.base < d.end < f.end;
        }
      }
    }
  }

  lemma {:induction false} GoodTrim(ram: seq<Seg>, ex: seq<Seg>)
    requires Input(ram, ex) && Trims(ram, ex)
    ensures Good(ram, ex) <==> Good([Seg(ex[0].end, ram[0].end)] + ram[1..], ex[1..])
  {
    hide Input, Heads, NoneSwallowed, NoneTwice, NoneIdle;
    InputHeads(ram, ex);
    TrimSwallowed(ram[0], ram[1..], ex[0], ex[1..]);
    TrimTwice(ram[0], ram[1..], ex[0], ex[1..]);
    TrimIdle(ram[0], ram[1..], ex[0], ex[1..]);
  }

  ghost predicate NoneMeet(ram: seq<Seg>, ex: seq<Seg>) {
    forall r, e :: r in ram && e in ex ==> !Meets(e, r)
  }

  lemma {:induction false} StuckCorrect(ram: seq<Seg>, ex: seq<Seg>)
    requires NonEmpty(ram) && Subtract(ram, ex) == Some(ram)
    ensures Correct(ram, ex) <==> NoneMeet(ram, ex)
  {
    hide Covers, Subtract;
    if Correct(ram, ex) {
      forall r, e | r in ram && e in ex
        ensures !Meets(e, r)
      {
        var x := if r.base < e.base then e.base else r.base;
        assert RightAt(ram, ram, ex, x);
        if Meets(e, r) {
          CoversMember(ram, r, x);
          CoversMember(ex, e, x);
        }
      }
    }
    if NoneMeet(ram, ex) {
      forall x
        ensures RightAt(ram, ram, ex, x)
      {
        if Covers(ram, x) && Covers(ex, x) {
          var r := CoversWitness(ram, x);
          var e := CoversWitness(ex, x);
        }
      }
    }
  }

  lemma {:induction false} StuckGood(ram: seq<Seg>, e: Seg, ex: seq<Seg>)
    requires NonEmpty(ram) && e.base <= e.end && (forall r :: r in ram ==> e.end <= r.base)
    requires forall d :: d in ex ==> e.end < d.base <= d.end
    ensures Good(ram, [e] + ex) <==> NoneMeet(ram, [e] + ex)
  {
    var ex' := [e] + ex;
    assert !EndsInside(ram, e) && e in ex';
    if NoneMeet(ram, ex') {
      forall r, d | r in ram && d in ex'
        ensures !(d.base <= r.base && r.end <= d.end)
      {
        assert !Meets(d, r);
      }
      assert forall d :: !Needed(ram, ex', d);
    }
    if NoneIdle(ram, ex') {
      forall r, d | r in ram && d in ex'
        ensures !Meets(d, r)
      {
        assert d in ex ==> e.end < d.base;
      }
    }
  }

  /** Behind the current exclusion the condition says that no exclusion meets RAM, and so does correctness. */
  lemma {:induction false} StuckExact(ram: seq<Seg>, ex: seq<Seg>)
    requires Input(ram, ex) && ex != [] && forall r :: r in ram ==> ex[0].end <= r.base
    ensures Correct(ram, ex) <==> Good(ram, ex)
  {
    hide Correct, Good, Subtract;
    Members(ex);
    StuckKeepsAll(ram, ex);
    StuckCorrect(ram, ex);
    assert ex == [ex[0]] + ex[1..];
    StuckGood(ram, ex[0], ex[1..]);
  }

  /**
    For all RAM and exclusion lists as the code builds them: the loop ends with exactly the RAM outside the
    exclusions, in non-empty segments, if and only if no RAM segment lies inside an exclusion, every exclusion that
    is followed by one that meets RAM ends inside a RAM segment, and no RAM segment holds one exclusion in its
    interior and the start of a later one, unless neither that one nor any after it meets RAM.
   */
  lemma {:induction false} SubtractExact(ram: seq<Seg>, ex: seq<Seg>)
    requires Input(ram, ex)
    ensures Correct(ram, ex) <==> Good(ram, ex)
    decreases |ram| + |ex|
  {
    hide Correct, Good;
    if ram == [] || ex == [] {
      NothingToDo(ram, ex);
    } else {
      var f, e := ram[0], ex[0];
      assert f in ram && e in ex;
      if Splits(ram, ex) {
        CorrectSplit(ram, ex);
        GoodSplit(ram, ex);
        SubtractExact(ram[1..], ex[1..]);
      } else if f.base < e.base {
        CorrectKeep(ram, ex, Seg(f.base, if f.end > e.base then e.base else f.end));
        GoodKeep(ram, ex);
        SubtractExact(ram[1..], ex);
      } else if Swallows(ram, ex) {
        SwallowIsWrong(ram, ex);
        SwallowIsBad(ram, ex);
      } else if Trims(ram, ex) {
        CorrectTrim(ram, ex);
        GoodTrim(ram, ex);
        SubtractExact([Seg(e.end, f.end)] + ram[1..], ex[1..]);
      } else {
        Members(ram);
        StuckExact(ram, ex);
      }
    }
  }

  lemma {:induction false} NothingToDo(ram: seq<Seg>, ex: seq<Seg>)
    requires NonEmpty(ram) && (ram == [] || ex == [])
    ensures Correct(ram, ex) && Good(ram, ex)
  {
    assert forall x :: RightAt(ram, ram, ex, x);
  }

  lemma {:induction false} SwallowIsBad(ram: seq<Seg>, ex: seq<Seg>)
    requires Swallows(ram, ex)
    ensures !Good(ram, ex)
  {
    assert ram[0] in ram && ex[0] in ex;
  }

  /** Two exclusions inside one RAM segment: the second one is handed out as free memory. */
  lemma {:induction false} SecondExclusionSurvives()
    ensures var ram, ex := [Seg(0, 100)], [Seg(10, 20), Seg(30, 40)];
            Input(ram, ex) && Subtract(ram, ex) == Some([Seg(0, 10), Seg(20, 100)]) && !Correct(ram, ex)
  {
    var ram, ex := [Seg(0, 100)], [Seg(10, 20), Seg(30, 40)];
    var out := [Seg(0, 10), Seg(20, 100)];
    assert ram[1..] == [] && ex[1..] == [Seg(30, 40)] && ex[1..][1..] == [] && out[1..] == [Seg(20, 100)];
    assert Subtract(ram[1..], ex[1..]) == Some([]);
    assert out + [] == out;
    assert Covers(out, 35) && Covers(ex, 35) && !RightAt(out, ram, ex, 35);
  }

  /** An empty exclusion at or below the first RAM segment is never passed: the kernel itself is handed out as free memory. */
  lemma {:induction false} EmptyExclusionBlocks()
    ensures var ram, ex := [Seg(0, 100)], [Seg(0, 0), Seg(30, 40)];
            Input(ram, ex) && Subtract(ram, ex) == Some(ram) && !Correct(ram, ex)
  {
    var ram, ex := [Seg(0, 100)], [Seg(0, 0), Seg(30, 40)];
    assert ram[1..] == [] && ex[1..] == [Seg(30, 40)] && ex[1..][1..] == [];
    StuckKeepsAll(ram, ex);
    assert Covers(ram, 35) && Covers(ex, 35) && !RightAt(ram, ram, ex, 35);
  }

  /** A RAM segment inside an exclusion: the loop does not end, or leaves an empty segment when the ends agree. */
  lemma {:induction false} SwallowedSegment()
    ensures Subtract([Seg(12, 18)], [Seg(10, 20)]) == None
    ensures Subtract([Seg(12, 20)], [Seg(10, 20)]) == Some([Seg(20, 20)])
  {
    assert [Seg(20, 20)] + [Seg(12, 20)][1..] == [Seg(20, 20)] && [Seg(10, 20)][1..] == [];
  }
}
