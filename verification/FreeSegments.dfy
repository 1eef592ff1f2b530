/**
  `mmu_compute_free_segments` of src/mmu.c in its own form: nodes linked by pointers and updated in
  place by loops, proved to compute the functions of modules RoundRam and SubtractExclusions.
 */
module FreeSegments {
  import opened Basics
  import opened SubtractExclusions
  import opened KernelSections
  import opened RoundRam

  // ------------------------------------------------------------------
  // Copying and rounding: nodes of the array `free_segments`
  // ------------------------------------------------------------------

  /** A node, its `next` link being an index into the array, -1 for NULL. */
  datatype Node = Node(item: Item, next: int)

  /** The items of the nodes reached from index `i`. Links only ever point forwards. */
  function ListFrom(nodes: seq<Node>, i: int): seq<Item>
    decreases |nodes| - i
  {
    if !(0 <= i < |nodes|) then []
    else [nodes[i].item] + if nodes[i].next > i then ListFrom(nodes, nodes[i].next) else []
  }

  /** The link from node `i` when all of the first `n` nodes are linked in order. */
  function After(n: nat, i: int): int {
    if i + 1 < n then i + 1 else -1
  }

  /** The link to node `i` once it has been rounded: past it when it is empty. */
  function LinkTo(items: seq<Item>, i: nat): int {
    if i < |items| && Thin(items[i]) then After(|items|, i) else After(|items|, i - 1)
  }

  /** The nodes as the rounding loop leaves them. */
  ghost predicate Rounded(nodes: seq<Node>, items: seq<Item>) {
    && |items| <= |nodes|
    && forall i :: 0 <= i < |items| ==> nodes[i] == Node(items[i], LinkTo(items, i + 1))
  }

  /** Following the links gives what module RoundRam says is reachable. */
  lemma {:induction false} RoundedReach(nodes: seq<Node>, items: seq<Item>, i: nat)
    requires Rounded(nodes, items) && i <= |items|
    ensures ListFrom(nodes, LinkTo(items, i)) == Reach(items[i..])
    decreases |items| - i
  {
    if i < |items| {
      var rest := items[i..];
      assert rest[0] == items[i] && rest[1..] == items[i + 1..];
      if !Thin(items[i]) {
        RoundedReach(nodes, items, i + 1);
      } else if i + 1 < |items| {
        assert rest[1] == items[i + 1] && rest[2..] == items[i + 2..];
        RoundedReach(nodes, items, i + 2);
      }
    }
  }

  function Raw(r: Section): Item {
    Item(r.base, r.length, r.base + r.length)
  }

  /** The copying loop. */
  method CopyRam(ram: seq<Section>, nodes: array<Node>)
    requires |ram| <= nodes.Length
    modifies nodes
    ensures forall j :: 0 <= j < |ram| ==> nodes[j] == Node(Raw(ram[j]), After(|ram|, j))
  {
    for i := 0 to |ram|
      invariant forall j :: 0 <= j < i ==> nodes[j] == Node(Raw(ram[j]), After(i, j))
    {
      nodes[i] := Node(Raw(ram[i]), -1);
      if i > 0 {
        nodes[i - 1] := nodes[i - 1].(next := i);
      }
    }
  }

  /** The nodes after `i` turns of the rounding loop. */
  ghost predicate Progress(nodes: seq<Node>, ram: seq<Section>, items: seq<Item>, i: nat) {
    && i <= |ram| == |items| <= |nodes|
    && (forall j :: 0 <= j < |ram| ==> nodes[j].item == if j < i then items[j] else Raw(ram[j]))
    && (forall j :: 0 <= j < |ram| ==> nodes[j].next == if j < i - 1 then LinkTo(items, j + 1) else After(|ram|, j))
  }

  lemma {:induction false} ProgressStep(nodes: seq<Node>, ram: seq<Section>, items: seq<Item>, i: nat)
    requires Progress(nodes, ram, items, i) && i < |ram|
    ensures var nodes' := nodes[i := nodes[i].(item := items[i])];
            Progress(if Thin(items[i]) && i > 0 then nodes'[i - 1 := nodes'[i - 1].(next := nodes'[i].next)] else nodes',
                     ram, items, i + 1)
  {
  }

  lemma {:induction false} ProgressEnds(nodes: seq<Node>, ram: seq<Section>, items: seq<Item>)
    requires Progress(nodes, ram, items, |ram|)
    ensures Rounded(nodes, items)
  {
  }

  lemma {:induction false} ProgressAt(nodes: seq<Node>, ram: seq<Section>, items: seq<Item>, i: nat)
    requires Progress(nodes, ram, items, i) && i < |ram|
    ensures nodes[i] == Node(Raw(ram[i]), After(|ram|, i))
  {
  }

  /** The rounding loop: an empty node is unlinked from `prev`, which is the node before it even if that was unlinked too. */
  method RoundNodes(ram: seq<Section>, nodes: array<Node>) returns (head: int)
    requires ram != [] && |ram| <= nodes.Length
    requires forall j :: 0 <= j < |ram| ==> nodes[j] == Node(Raw(ram[j]), After(|ram|, j))
    modifies nodes
    ensures head == LinkTo(RoundInAll(ram), 0) && Rounded(nodes[..], RoundInAll(ram))
  {
    var n := |ram|;
    ghost var items := RoundInAll(ram);
    assert Progress(nodes[..], ram, items, 0);
    head := RoundLoop(ram, nodes, items);
    ProgressEnds(nodes[..], ram, items);
  }

  method RoundLoop(ram: seq<Section>, nodes: array<Node>, ghost items: seq<Item>) returns (head: int)
    requires ram != [] && items == RoundInAll(ram) && Progress(nodes[..], ram, items, 0)
    modifies nodes
    ensures head == LinkTo(items, 0) && Progress(nodes[..], ram, items, |ram|)
  {
    hide RoundIn, Progress;
    ghost var i := 0;
    ProgressBounds(nodes[..], ram, items, 0);
    head := 0;
    var prev, curr := -1, 0;
    while curr != -1
      invariant i <= |ram| <= nodes.Length && Progress(nodes[..], ram, items, i)
      invariant prev == i - 1 && curr == After(|ram|, i - 1)
      invariant head == if i == 0 then 0 else LinkTo(items, 0)
      decreases |ram| - i
    {
      ProgressAt(nodes[..], ram, items, i);
      ProgressStep(nodes[..], ram, items, i);
      nodes[curr] := nodes[curr].(item := RoundIn(Section(nodes[curr].item.base, nodes[curr].item.len)));
      if nodes[curr].item.len == 0 {
        if prev != -1 {
          nodes[prev] := nodes[prev].(next := nodes[curr].next);
        } else {
          head := nodes[curr].next;
        }
      }
      prev := curr;
      curr := nodes[curr].next;
      i := i + 1;
    }
  }

  lemma {:induction false} ProgressBounds(nodes: seq<Node>, ram: seq<Section>, items: seq<Item>, i: nat)
    requires Progress(nodes, ram, items, i)
    ensures i <= |ram| == |items| <= |nodes|
  {
  }

  /** Copying and rounding: what is reachable from the new head. */
  method RoundInPlace(ram: seq<Section>, nodes: array<Node>) returns (head: int)
    requires ram != [] && |ram| <= nodes.Length
    modifies nodes
    ensures ListFrom(nodes[..], head) == Reach(RoundInAll(ram))
    ensures -1 <= head < |ram| && forall i :: 0 <= i < |ram| ==> nodes[i].next == -1 || i < nodes[i].next < |ram|
  {
    hide RoundIn, Reach, ListFrom;
    CopyRam(ram, nodes);
    head := RoundNodes(ram, nodes);
    RoundedReach(nodes[..], RoundInAll(ram), 0);
    assert RoundInAll(ram)[0..] == RoundInAll(ram);
    assert forall i :: 0 <= i < |ram| ==> nodes[..][i] == nodes[i];
  }

  // ------------------------------------------------------------------
  // Removing the exclusions
  // ------------------------------------------------------------------

  /** The removal loop on nodes with all three fields, from the node `todo[0]` on. */
  function Work(todo: seq<Item>, ex: seq<Seg>): Option<seq<Seg>>
    decreases |todo| + 2 * |ex|
  {
    if todo == [] || ex == [] then Some(ToSegs(todo))
    else
      var f, e := todo[0], ex[0];
      if f.base < e.base && f.end > e.base then
        if f.end > e.end then
          Prepend([Seg(f.base, e.base)], Work([Item(e.end, f.end - e.end, 0)] + todo[1..], ex[1..]))
        else Prepend([Seg(f.base, e.base)], Work(todo[1..], ex))
      else if f.base >= e.base && f.base < e.end then
        if f.end < e.end then None
        else Work([Item(e.end, f.end - e.end, f.end)] + todo[1..], ex[1..])
      else Prepend([ToSeg(f)], Work(todo[1..], ex))
  }

  /** How many nodes the loop adds to the array. */
  function SplitCount(todo: seq<Item>, ex: seq<Seg>): nat
    decreases |todo| + 2 * |ex|
  {
    if todo == [] || ex == [] then 0
    else
      var f, e := todo[0], ex[0];
      if f.base < e.base && f.end > e.base then
        if f.end > e.end then 1 + SplitCount([Item(e.end, f.end - e.end, 0)] + todo[1..], ex[1..])
        else SplitCount(todo[1..], ex)
      else if f.base >= e.base && f.base < e.end then
        if f.end < e.end then 0 else SplitCount([Item(e.end, f.end - e.end, f.end)] + todo[1..], ex[1..])
      else SplitCount(todo[1..], ex)
  }

  ghost predicate Inside(e: Seg, ram: seq<Seg>) {
    exists r :: r in ram && r.base < e.base && e.end < r.end
  }

  /** The number of exclusions that lie strictly inside a RAM segment. */
  ghost function InsideCount(ram: seq<Seg>, ex: seq<Seg>): nat
    decreases |ex|
  {
    if ex == [] then 0 else (if Inside(ex[0], ram) then 1 else 0) + InsideCount(ram, ex[1..])
  }

  function Fresh(s: Seg): Item
    requires s.base <= s.end
  {
    Item(s.base, s.end - s.base, s.end)
  }

  function FreshAll(segs: seq<Seg>): (r: seq<Item>)
    requires Proper(segs)
    ensures |r| == |segs| && forall i :: 0 <= i < |r| ==> r[i] == Fresh(segs[i])
    decreases |segs|
  {
    if segs == [] then [] else [Fresh(segs[0])] + FreshAll(segs[1..])
  }

  lemma {:induction false} FreshToSegs(segs: seq<Seg>)
    requires Proper(segs)
    ensures ToSegs(FreshAll(segs)) == segs
  {
    assert forall i :: 0 <= i < |segs| ==> ToSegs(FreshAll(segs))[i] == segs[i];
  }

  /** A node cut off behind an exclusion has end 0 and is passed over. */
  lemma {:induction false} StaleIsPassed(a: Item, todo: seq<Item>, ex: seq<Seg>)
    requires a.end == 0 && (ex != [] ==> a.base < ex[0].base)
    ensures Work([a] + todo, ex) == Prepend([ToSeg(a)], Work(todo, ex))
  {
    assert ([a] + todo)[1..] == todo;
    if ex == [] {
      ToSegsCons(a, todo);
    }
  }

  lemma {:induction false} FreshCons(f: Seg, rest: seq<Seg>)
    requires f.base <= f.end && Proper(rest)
    ensures Proper([f] + rest) && FreshAll([f] + rest) == [Fresh(f)] + FreshAll(rest)
  {
    assert ([f] + rest)[1..] == rest;
  }

  lemma {:induction false} GappedSecond(ex: seq<Seg>)
    requires Gapped(ex) && ex != []
    ensures Gapped(ex[1..]) && (ex[1..] != [] ==> ex[0].end < ex[1..][0].base)
  {
    if ex[1..] != [] {
      assert ex[1..][0] in ex[1..];
    }
  }

  lemma {:induction false} WorkDone(ram: seq<Seg>, ex: seq<Seg>)
    requires Proper(ram) && (ram == [] || ex == [])
    ensures Work(FreshAll(ram), ex) == Some(ram) == Subtract(ram, ex)
  {
    FreshToSegs(ram);
  }

  /** One turn of both formulations. */
  lemma {:induction false} Unfold(f: Seg, rest: seq<Seg>, todo: seq<Item>, ex: seq<Seg>)
    requires ex != [] && f.base <= f.end
    ensures var e, ex' := ex[0], ex[1..];
            if f.base < e.base && f.end > e.base then
              if f.end > e.end then
                && Subtract([f] + rest, ex) == Prepend([Seg(f.base, e.base), Seg(e.end, f.end)], Subtract(rest, ex'))
                && Work([Fresh(f)] + todo, ex)
                   == Prepend([Seg(f.base, e.base)], Work([Item(e.end, f.end - e.end, 0)] + todo, ex'))
              else
                && Subtract([f] + rest, ex) == Prepend([Seg(f.base, e.base)], Subtract(rest, ex))
                && Work([Fresh(f)] + todo, ex) == Prepend([Seg(f.base, e.base)], Work(todo, ex))
            else if f.base >= e.base && f.base < e.end then
              if f.end < e.end then Subtract([f] + rest, ex) == None == Work([Fresh(f)] + todo, ex)
              else
                && Subtract([f] + rest, ex) == Subtract([Seg(e.end, f.end)] + rest, ex')
                && Work([Fresh(f)] + todo, ex) == Work([Fresh(Seg(e.end, f.end))] + todo, ex')
            else
              && Subtract([f] + rest, ex) == Prepend([f], Subtract(rest, ex))
              && Work([Fresh(f)] + todo, ex) == Prepend([f], Work(todo, ex))
  {
    assert ([f] + rest)[1..] == rest && ([Fresh(f)] + todo)[1..] == todo;
  }

  /** The loop with its stale fields computes `Subtract`. */
  lemma {:induction false} WorkIsSubtract(ram: seq<Seg>, ex: seq<Seg>)
    requires Proper(ram) && Gapped(ex)
    ensures Work(FreshAll(ram), ex) == Subtract(ram, ex)
    decreases |ram| + |ex|
  {
    hide FreshAll, ToSegs, Gapped, Work, Subtract, Prepend;
    if ram == [] || ex == [] {
      WorkDone(ram, ex);
    } else {
      var f, e, rest := ram[0], ex[0], ram[1..];
      assert ram == [f] + rest && f in ram;
      FreshCons(f, rest);
      Unfold(f, rest, FreshAll(rest), ex);
      GappedSecond(ex);
      if f.base < e.base && f.end > e.base {
        if f.end > e.end {
          var t := Item(e.end, f.end - e.end, 0);
          StaleIsPassed(t, FreshAll(rest), ex[1..]);
          WorkIsSubtract(rest, ex[1..]);
          PrependTwo(Seg(f.base, e.base), ToSeg(t), Subtract(rest, ex[1..]));
        } else {
          WorkIsSubtract(rest, ex);
        }
      } else if f.base >= e.base && f.base < e.end {
        if f.end >= e.end {
          var g := Seg(e.end, f.end);
          FreshCons(g, rest);
          WorkIsSubtract([g] + rest, ex[1..]);
        }
      } else {
        WorkIsSubtract(rest, ex);
      }
    }
  }

  lemma {:induction false} PrependTwo(a: Seg, b: Seg, rest: Option<seq<Seg>>)
    ensures Prepend([a], Prepend([b], rest)) == Prepend([a, b], rest)
  {
    if rest.Some? {
      assert [a] + ([b] + rest.value) == [a, b] + rest.value;
    }
  }

  lemma {:induction false} ToSegsAppend(a: seq<Item>, b: seq<Item>)
    ensures ToSegs(a + b) == ToSegs(a) + ToSegs(b)
  {
    assert forall i :: 0 <= i < |a + b| ==> ToSegs(a + b)[i] == (ToSegs(a) + ToSegs(b))[i];
  }

  /** A node whose end is set is part of a RAM segment. */
  ghost predicate Within(todo: seq<Item>, ram: seq<Seg>) {
    forall it :: it in todo ==> it.end == 0 || exists r :: r in ram && r.base <= it.base && it.end <= r.end
  }

  /** The loop needs no more room than there are exclusions strictly inside RAM segments. */
  lemma {:induction false} SplitsAreInside(todo: seq<Item>, ram: seq<Seg>, ex: seq<Seg>)
    requires Within(todo, ram)
    ensures SplitCount(todo, ex) <= InsideCount(ram, ex)
    decreases |todo| + 2 * |ex|
  {
    if todo != [] && ex != [] {
      var f, e, rest := todo[0], ex[0], todo[1..];
      assert f in todo && Within(rest, ram);
      if f.base < e.base && f.end > e.base {
        if f.end > e.end {
          SplitsAreInside([Item(e.end, f.end - e.end, 0)] + rest, ram, ex[1..]);
        } else {
          SplitsAreInside(rest, ram, ex);
        }
      } else if f.base >= e.base && f.base < e.end {
        if f.end >= e.end {
          SplitsAreInside([Item(e.end, f.end - e.end, f.end)] + rest, ram, ex[1..]);
        }
      } else {
        SplitsAreInside(rest, ram, ex);
      }
    }
  }

  lemma {:induction false} FreshWithin(ram: seq<Seg>)
    requires Proper(ram)
    ensures Within(FreshAll(ram), ram)
  {
    forall it | it in FreshAll(ram)
      ensures exists r :: r in ram && r.base <= it.base && it.end <= r.end
    {
      var i :| 0 <= i < |ram| && FreshAll(ram)[i] == it;
      assert ram[i] in ram;
    }
  }

  /** The nodes before `fcurr` are final, and going on from `fcurr` and `ecurr` completes the list `target`, or never ends. */
  ghost predicate Completes(nodes: seq<Item>, fcurr: nat, ex: seq<Seg>, ecurr: nat, target: Option<seq<Seg>>) {
    && fcurr <= |nodes| && ecurr <= |ex|
    && Prepend(ToSegs(nodes[..fcurr]), Work(nodes[fcurr..], ex[ecurr..])) == target
  }

  lemma {:induction false} CompletesStart(list: seq<Item>, ex: seq<Seg>)
    ensures Completes(list, 0, ex, 0, Work(list, ex))
  {
    assert list[..0] == [] && list[0..] == list && ex[0..] == ex;
    if Work(list, ex).Some? {
      assert [] + Work(list, ex).value == Work(list, ex).value;
    }
  }

  lemma {:induction false} CompletesEnd(nodes: seq<Item>, fcurr: nat, ex: seq<Seg>, ecurr: nat, target: Option<seq<Seg>>)
    requires Completes(nodes, fcurr, ex, ecurr, target) && (fcurr == |nodes| || ecurr == |ex|)
    ensures target == Some(ToSegs(nodes)) && SplitCount(nodes[fcurr..], ex[ecurr..]) == 0
  {
    ToSegsAppend(nodes[..fcurr], nodes[fcurr..]);
    assert nodes[..fcurr] + nodes[fcurr..] == nodes;
  }

  /** Passing a node, whose final form is `f`: the list `later` is still to be worked on. */
  lemma {:induction false} Pass(nodes: seq<Item>, fcurr: nat, ex: seq<Seg>, ecurr: nat, target: Option<seq<Seg>>,
             f: Item, later: seq<Item>, ecurr': nat)
    requires Completes(nodes, fcurr, ex, ecurr, target) && fcurr < |nodes| && ecurr' <= |ex|
    requires Work(nodes[fcurr..], ex[ecurr..]) == Prepend([ToSeg(f)], Work(later, ex[ecurr'..]))
    ensures Completes(nodes[..fcurr] + [f] + later, fcurr + 1, ex, ecurr', target)
    ensures (nodes[..fcurr] + [f] + later)[fcurr + 1..] == later
  {
    hide Work;
    var nodes' := nodes[..fcurr] + [f] + later;
    var done := nodes[..fcurr];
    assert nodes'[..fcurr + 1] == done + [f] && nodes'[fcurr + 1..] == later;
    ToSegsAppend(done, [f]);
    assert ToSegs([f]) == [ToSeg(f)];
    var rest := Work(later, ex[ecurr'..]);
    if rest.Some? {
      assert ToSegs(done) + ([ToSeg(f)] + rest.value) == ToSegs(done + [f]) + rest.value;
    }
  }

  /** What one turn of the loop is to `Work`, and whether it adds a node. */
  lemma {:induction false} WorkTurn(nodes: seq<Item>, fcurr: nat, ex: seq<Seg>, ecurr: nat)
    requires fcurr < |nodes| && ecurr < |ex|
    ensures var f, e, rest, ex1, ex2 := nodes[fcurr], ex[ecurr], nodes[fcurr + 1..], ex[ecurr..], ex[ecurr + 1..];
            var work, splits := Work(nodes[fcurr..], ex1), SplitCount(nodes[fcurr..], ex1);
            if f.base < e.base && f.end > e.base then
              if f.end > e.end then
                var cut := [Item(e.end, f.end - e.end, 0)] + rest;
                work == Prepend([Seg(f.base, e.base)], Work(cut, ex2)) && splits == 1 + SplitCount(cut, ex2)
              else work == Prepend([Seg(f.base, e.base)], Work(rest, ex1)) && splits == SplitCount(rest, ex1)
            else if f.base >= e.base && f.base < e.end then
              if f.end < e.end then work == None && splits == 0
              else
                var cut := [Item(e.end, f.end - e.end, f.end)] + rest;
                work == Work(cut, ex2) && splits == SplitCount(cut, ex2)
            else work == Prepend([ToSeg(f)], Work(rest, ex1)) && splits == SplitCount(rest, ex1)
  {
    assert nodes[fcurr..][1..] == nodes[fcurr + 1..] && ex[ecurr..][1..] == ex[ecurr + 1..];
  }

  // ------------------------------------------------------------------
  // Turns of the removal loop on its own variables
  // ------------------------------------------------------------------

  /** The variables of the loop; links and positions are indices of nodes, -1 for NULL. */
  datatype Loop = Loop(head: int, prev: int, fcurr: int, ecurr: nat, i: nat, nodes: seq<Node>)

  predicate Going(l: Loop, ex: seq<Seg>) {
    0 <= l.fcurr < |l.nodes| && l.prev < |l.nodes| && l.ecurr < |ex|
  }

  /** The current node lies inside the current exclusion and ends before it. */
  predicate Unlinks(f: Item, e: Seg) {
    e.base <= f.base < e.end && f.end < e.end
  }

  /** One turn of the loop; without a node left for the part cut off there is no next state. */
  function Turn(l: Loop, ex: seq<Seg>): Option<Loop>
    requires Going(l, ex)
  {
    var node, e := l.nodes[l.fcurr], ex[l.ecurr];
    var f := node.item;
    if f.base < e.base && f.end > e.base then
      var cut := node.(item := f.(len := e.base - f.base));
      if f.end > e.end then
        if l.i >= |l.nodes| then None
        else Some(Loop(l.head, l.fcurr, l.i, l.ecurr + 1, l.i + 1,
                       l.nodes[l.i := Node(Item(e.end, f.end - e.end, 0), node.next)][l.fcurr := cut.(next := l.i)]))
      else Some(l.(prev := l.fcurr, fcurr := node.next, nodes := l.nodes[l.fcurr := cut]))
    else if f.base >= e.base && f.base < e.end then
      if f.end < e.end then
        if l.prev >= 0 then Some(l.(nodes := l.nodes[l.prev := l.nodes[l.prev].(next := node.next)]))
        else Some(l.(head := node.next))
      else Some(l.(ecurr := l.ecurr + 1, nodes := l.nodes[l.fcurr := node.(item := Item(e.end, f.end - e.end, f.end))]))
    else Some(l.(prev := l.fcurr, fcurr := node.next))
  }

  /** The state after `n` turns, or after the last one. */
  function Turns(l: Loop, ex: seq<Seg>, n: nat): Option<Loop>
    decreases n
  {
    if n == 0 || !Going(l, ex) then Some(l)
    else if Turn(l, ex).None? then None
    else Turns(Turn(l, ex).value, ex, n - 1)
  }

  /** A turn that unlinks the current node stays at it, and the next turn leaves everything as it is. */
  lemma {:induction false} UnlinkingRepeats(l: Loop, ex: seq<Seg>)
    requires Going(l, ex) && Unlinks(l.nodes[l.fcurr].item, ex[l.ecurr])
    ensures Turn(l, ex).Some?
    ensures var l' := Turn(l, ex).value;
            Going(l', ex) && Unlinks(l'.nodes[l'.fcurr].item, ex[l'.ecurr]) && Turn(l', ex) == Some(l')
  {
    var l' := Turn(l, ex).value;
    assert l'.nodes[l'.fcurr].item == l.nodes[l.fcurr].item && l'.nodes[l'.fcurr].next == l.nodes[l.fcurr].next;
    if l.prev >= 0 {
      assert l'.nodes[l.prev] == l.nodes[l.prev].(next := l.nodes[l.fcurr].next);
      assert l'.nodes[l.prev := l'.nodes[l.prev].(next := l'.nodes[l'.fcurr].next)] == l'.nodes;
    }
  }

  /** So the loop is never left: however many turns it makes, another one follows. */
  lemma {:induction false} UnlinkingNeverEnds(l: Loop, ex: seq<Seg>, n: nat)
    requires Going(l, ex) && Unlinks(l.nodes[l.fcurr].item, ex[l.ecurr])
    ensures Turns(l, ex, n).Some? && Going(Turns(l, ex, n).value, ex)
    decreases n
  {
    hide Turn;
    if n > 0 {
      UnlinkingRepeats(l, ex);
      UnlinkingNeverEnds(Turn(l, ex).value, ex, n - 1);
    }
  }

  lemma {:induction false} TurnsAdd(l: Loop, ex: seq<Seg>, m: nat, n: nat)
    ensures Turns(l, ex, m).Some? ==> Turns(l, ex, m + n) == Turns(Turns(l, ex, m).value, ex, n)
    decreases m
  {
    hide Turn;
    if m > 0 && Going(l, ex) {
      if Turn(l, ex).Some? {
        TurnsAdd(Turn(l, ex).value, ex, m - 1, n);
      }
    } else if m > 0 {
      assert Turns(l, ex, m + n) == Some(l) == Turns(l, ex, n);
    }
  }

  /** After `n` turns the loop goes on. */
  ghost predicate GoesOn(l: Loop, ex: seq<Seg>, n: nat) {
    Turns(l, ex, n).Some? && Going(Turns(l, ex, n).value, ex)
  }

  // ------------------------------------------------------------------
  // The list behind the links
  // ------------------------------------------------------------------

  function At(path: seq<nat>, j: nat): int {
    if j < |path| then path[j] else -1
  }

  /** Following the links from `head` visits the nodes of `path` and ends in NULL. */
  ghost predicate Chain(nodes: seq<Node>, head: int, path: seq<nat>) {
    && NoDup(path) && (forall j :: 0 <= j < |path| ==> path[j] < |nodes|)
    && head == At(path, 0)
    && (forall j :: 0 <= j < |path| ==> nodes[path[j]].next == At(path, j + 1))
  }

  ghost function Items(nodes: seq<Node>, path: seq<nat>): seq<Item>
    requires forall j :: 0 <= j < |path| ==> path[j] < |nodes|
  {
    seq(|path|, j requires 0 <= j < |path| => nodes[path[j]].item)
  }

  /** The loop stands at position `k` of its list, whose nodes are among the first `i`. */
  ghost predicate Standing(l: Loop, path: seq<nat>, k: nat) {
    && Chain(l.nodes, l.head, path) && k <= |path| && l.i <= |l.nodes|
    && l.fcurr == At(path, k) && l.prev == (if k == 0 then -1 else path[k - 1])
    && (forall j :: 0 <= j < |path| ==> path[j] < l.i)
  }

  /** The nodes a forward-linked list runs through. */
  lemma {:induction false} ForwardChain(nodes: seq<Node>, n: nat, head: int) returns (path: seq<nat>)
    requires n <= |nodes| && -1 <= head < n
    requires forall i :: 0 <= i < n ==> nodes[i].next == -1 || i < nodes[i].next < n
    ensures Chain(nodes, head, path) && Items(nodes, path) == ListFrom(nodes, head)
    ensures forall j :: 0 <= j < |path| ==> head <= path[j] < n
    decreases if head < 0 then 0 else n - head
  {
    hide Chain, NoDup;
    if head == -1 {
      path := [];
      EmptyChain(nodes, path);
    } else {
      var next := nodes[head].next;
      var rest := ForwardChain(nodes, n, next);
      path := [head] + rest;
      if next == -1 {
        EmptyChain(nodes, rest);
      }
      ChainCons(nodes, head, rest);
    }
  }

  lemma {:induction false} EmptyChain(nodes: seq<Node>, path: seq<nat>)
    ensures Chain(nodes, -1, path) <==> path == []
  {
  }

  lemma {:induction false} AtCons(head: nat, rest: seq<nat>, j: nat)
    ensures At([head] + rest, 0) == head && At([head] + rest, j + 1) == At(rest, j)
  {
  }

  lemma {:induction false} NoDupCons(head: nat, rest: seq<nat>)
    requires NoDup(rest) && head !in rest
    ensures NoDup([head] + rest)
  {
    NoDupAppend([head], rest);
  }

  lemma {:induction false} ChainCons(nodes: seq<Node>, head: nat, rest: seq<nat>)
    requires head < |nodes| && Chain(nodes, nodes[head].next, rest) && head !in rest
    ensures Chain(nodes, head, [head] + rest) && Items(nodes, [head] + rest) == [nodes[head].item] + Items(nodes, rest)
  {
    hide NoDup, At;
    var path := [head] + rest;
    NoDupCons(head, rest);
    AtCons(head, rest, 0);
    forall j | 0 <= j < |path|
      ensures path[j] < |nodes| && nodes[path[j]].next == At(path, j + 1)
    {
      AtCons(head, rest, j);
      if j > 0 {
        assert path[j] == rest[j - 1] && nodes[rest[j - 1]].next == At(rest, j - 1 + 1);
      }
    }
    ItemsCons(nodes, head, rest);
  }

  lemma {:induction false} ItemsCons(nodes: seq<Node>, head: nat, rest: seq<nat>)
    requires head < |nodes| && forall j :: 0 <= j < |rest| ==> rest[j] < |nodes|
    ensures forall j :: 0 <= j < |[head] + rest| ==> ([head] + rest)[j] < |nodes|
    ensures Items(nodes, [head] + rest) == [nodes[head].item] + Items(nodes, rest)
  {
  }

  /** A turn that changes at most the item of the current node, and goes to the next node or stays. */
  lemma {:induction false} MoveOn(l: Loop, path: seq<nat>, k: nat, it: Item, l': Loop)
    requires Standing(l, path, k) && k < |path|
    requires l'.nodes == l.nodes[path[k] := l.nodes[path[k]].(item := it)] && l'.head == l.head && l'.i == l.i
    ensures l'.prev == l.fcurr && l'.fcurr == l.nodes[path[k]].next ==> Standing(l', path, k + 1)
    ensures l'.prev == l.prev && l'.fcurr == l.fcurr ==> Standing(l', path, k)
    ensures Chain(l'.nodes, l'.head, path) && Items(l'.nodes, path) == Items(l.nodes, path)[k := it]
  {
    hide At, NoDup;
    AtInside(path, k);
    forall j | 0 <= j < |path|
      ensures l'.nodes[path[j]].next == At(path, j + 1)
      ensures l'.nodes[path[j]].item == if j == k then it else l.nodes[path[j]].item
    {
      if j != k {
        OthersDiffer(path, k, j);
      }
    }
  }

  lemma {:induction false} AtInside(path: seq<nat>, k: nat)
    requires k < |path|
    ensures At(path, k) == path[k]
  {
  }

  /** `path` with a new node behind position `k`. */
  function Spliced(path: seq<nat>, k: nat, i: nat): (r: seq<nat>)
    requires k < |path|
    ensures |r| == |path| + 1
    ensures forall j :: 0 <= j < |r| ==> r[j] == if j <= k then path[j] else if j == k + 1 then i else path[j - 1]
  {
    path[..k + 1] + [i] + path[k + 1..]
  }

  lemma {:induction false} SplicedNoDup(path: seq<nat>, k: nat, i: nat)
    requires k < |path| && NoDup(path) && i !in path
    ensures NoDup(Spliced(path, k, i))
  {
    assert forall j :: 0 <= j < |path| ==> path[j] in path;
  }

  /** The node at position `j` of the spliced path after the new node was linked in. */
  ghost function NodeAt(nodes: seq<Node>, path: seq<nat>, k: nat, i: nat, it: Item, part: Item, j: nat): Node
    requires k < |path| && j <= |path| && forall m :: 0 <= m < |path| ==> path[m] < |nodes|
  {
    if j < k then nodes[path[j]] else if j == k then Node(it, i)
    else if j == k + 1 then Node(part, nodes[path[k]].next) else nodes[path[j - 1]]
  }

  ghost predicate LinkedIn(nodes: seq<Node>, path: seq<nat>, k: nat, i: nat, it: Item, part: Item, nodes': seq<Node>)
    requires k < |path| && forall j :: 0 <= j < |path| ==> path[j] < |nodes|
  {
    var path' := Spliced(path, k, i);
    && |nodes'| == |nodes| && i < |nodes|
    && forall j :: 0 <= j < |path'| ==> nodes'[path'[j]] == NodeAt(nodes, path, k, i, it, part, j)
  }

  lemma {:induction false} LinkingIn(nodes: seq<Node>, path: seq<nat>, k: nat, i: nat, it: Item, part: Item, nodes': seq<Node>)
    requires k < |path| && (forall j :: 0 <= j < |path| ==> path[j] < |nodes|) && i < |nodes| && NoDup(path) && i !in path
    requires nodes' == nodes[i := Node(part, nodes[path[k]].next)][path[k] := Node(it, i)]
    ensures LinkedIn(nodes, path, k, i, it, part, nodes')
  {
    hide NoDup;
    var path' := Spliced(path, k, i);
    forall j | 0 <= j < |path'|
      ensures nodes'[path'[j]] == NodeAt(nodes, path, k, i, it, part, j)
    {
      assert path[k] in path;
      if j != k && j != k + 1 {
        var m := if j < k then j else j - 1;
        OthersDiffer(path, k, m);
        assert path[m] in path && path'[j] == path[m];
      }
    }
  }

  lemma {:induction false} AtSpliced(path: seq<nat>, k: nat, i: nat, j: nat)
    requires k < |path|
    ensures At(Spliced(path, k, i), 0) == At(path, 0)
    ensures At(Spliced(path, k, i), j + 1) == if j < k then At(path, j + 1) else if j == k then i else At(path, j)
  {
  }

  lemma {:induction false} LinkedChain(nodes: seq<Node>, head: int, path: seq<nat>, k: nat, i: nat, it: Item, part: Item, nodes': seq<Node>)
    requires Chain(nodes, head, path) && k < |path| && i !in path && LinkedIn(nodes, path, k, i, it, part, nodes')
    ensures Chain(nodes', head, Spliced(path, k, i))
  {
    hide NoDup, At;
    SplicedNoDup(path, k, i);
    var path' := Spliced(path, k, i);
    AtSpliced(path, k, i, 0);
    forall j | 0 <= j < |path'|
      ensures nodes'[path'[j]].next == At(path', j + 1)
    {
      AtSpliced(path, k, i, j);
      if j < k {
        assert nodes[path[j]].next == At(path, j + 1);
      } else if j == k + 1 {
        assert nodes[path[k]].next == At(path, k + 1);
      } else if j > k + 1 {
        assert nodes[path[j - 1]].next == At(path, j - 1 + 1);
      }
    }
  }

  lemma {:induction false} LinkedItems(nodes: seq<Node>, path: seq<nat>, k: nat, i: nat, it: Item, part: Item, nodes': seq<Node>)
    requires k < |path| && (forall j :: 0 <= j < |path| ==> path[j] < |nodes|) && LinkedIn(nodes, path, k, i, it, part, nodes')
    ensures forall j :: 0 <= j <= |path| ==> Spliced(path, k, i)[j] < |nodes'|
    ensures Items(nodes', Spliced(path, k, i)) == Items(nodes, path)[..k] + [it] + ([part] + Items(nodes, path)[k + 1..])
  {
    var path' := Spliced(path, k, i);
    var a, b := Items(nodes', path'), Items(nodes, path);
    var c := b[..k] + [it] + ([part] + b[k + 1..]);
    assert |a| == |c|;
    forall j | 0 <= j < |path'|
      ensures a[j] == c[j]
    {
      assert a[j] == nodes'[path'[j]].item == NodeAt(nodes, path, k, i, it, part, j).item;
      if j < k {
        assert c[j] == b[j] == nodes[path[j]].item;
      } else if j > k + 1 {
        assert c[j] == b[j - 1] == nodes[path[j - 1]].item;
      }
    }
  }

  /** A turn that links a node for the part cut off in behind the current one. */
  lemma {:induction false} LinkIn(l: Loop, path: seq<nat>, k: nat, it: Item, part: Item, l': Loop)
    requires Standing(l, path, k) && k < |path| && l.i < |l.nodes|
    requires l'.nodes == l.nodes[l.i := Node(part, l.nodes[path[k]].next)][path[k] := Node(it, l.i)]
    requires l'.head == l.head && l'.i == l.i + 1 && l'.prev == l.fcurr && l'.fcurr == l.i
    ensures Standing(l', Spliced(path, k, l.i), k + 1)
    ensures Items(l'.nodes, Spliced(path, k, l.i))
         == Items(l.nodes, path)[..k] + [it] + ([part] + Items(l.nodes, path)[k + 1..])
  {
    hide NoDup, LinkedIn, Chain, Items;
    StandingFacts(l, path, k);
    AtSpliced(path, k, l.i, k);
    LinkingIn(l.nodes, path, k, l.i, it, part, l'.nodes);
    LinkedChain(l.nodes, l.head, path, k, l.i, it, part, l'.nodes);
    LinkedItems(l.nodes, path, k, l.i, it, part, l'.nodes);
  }

  lemma {:induction false} StandingFacts(l: Loop, path: seq<nat>, k: nat)
    requires Standing(l, path, k) && k < |path|
    ensures NoDup(path) && l.i !in path && l.fcurr == path[k] && forall j :: 0 <= j < |path| ==> path[j] < |l.nodes|
  {
  }

  lemma {:induction false} OthersDiffer(path: seq<nat>, k: nat, j: nat)
    requires NoDup(path) && k < |path| && j < |path| && j != k
    ensures path[j] != path[k]
  {
  }

  /** How the removal loop can go: it ends, it goes round for ever, or it runs past the end of the array of nodes. */
  datatype Removal = Done(end: Loop) | Forever | OutOfRoom

  /**
    The removal loop on linked nodes, with `path0` the nodes of the list it starts from. It is left after some number
    of turns with the list `Work` says, or needs more nodes than there are, or goes on after every number of turns.
   */
  method RemoveInPlace(l0: Loop, ex: seq<Seg>, ghost path0: seq<nat>) returns (r: Removal, ghost path: seq<nat>)
    requires Standing(l0, path0, 0) && l0.ecurr == 0
    ensures r.OutOfRoom? <==> |l0.nodes| < l0.i + SplitCount(Items(l0.nodes, path0), ex)
    ensures r.OutOfRoom? ==> exists n: nat :: Turns(l0, ex, n).None?
    ensures r.Forever? ==> Work(Items(l0.nodes, path0), ex) == None && forall n: nat :: GoesOn(l0, ex, n)
    ensures r.Done? ==> !Going(r.end, ex) && exists n: nat :: Turns(l0, ex, n) == Some(r.end)
    ensures r.Done? ==> Chain(r.end.nodes, r.end.head, path)
    ensures r.Done? ==> Work(Items(l0.nodes, path0), ex) == Some(ToSegs(Items(r.end.nodes, path)))
  {
    hide Work, ToSegs, SplitCount, Turns, Turn, Progressing, GoesOn;
    var l := l0;
    ghost var target, total := Work(Items(l0.nodes, path0), ex), l0.i + SplitCount(Items(l0.nodes, path0), ex);
    ghost var k: nat, turns: nat := 0, 0;
    path := path0;
    ProgressingStart(l0, ex, path0);
    NoTurns(l0, ex);
    while Going(l, ex)
      invariant Progressing(l, path, k, ex, target, total) && |l.nodes| == |l0.nodes| && k <= |path| && l.ecurr <= |ex|
      invariant Turns(l0, ex, turns) == Some(l) && forall m :: 0 <= m < turns ==> GoesOn(l0, ex, m)
      decreases |path| - k + 2 * (|ex| - l.ecurr)
    {
      OneMore(l0, ex, turns, l);
      TurnStops(l, path, k, ex, target, total);
      var turn := Turn(l, ex);
      if turn.None? {
        return OutOfRoom, [];
      }
      if Unlinks(l.nodes[l.fcurr].item, ex[l.ecurr]) {
        ForeverFrom(l0, ex, turns, l);
        return Forever, [];
      }
      path, k := TurnKeeps(l, path, k, ex, target, total);
      l := turn.value;
      turns := turns + 1;
    }
    ProgressingEnd(l, path, k, ex, target, total);
    return Done(l), path;
  }

  /** The loop is at position `k` of its list, going on completes `target`, and `total` nodes will be in use at the end. */
  ghost predicate Progressing(l: Loop, path: seq<nat>, k: nat, ex: seq<Seg>, target: Option<seq<Seg>>, total: nat) {
    && Standing(l, path, k) && l.ecurr <= |ex|
    && Completes(Items(l.nodes, path), k, ex, l.ecurr, target)
    && l.i + SplitCount(Items(l.nodes, path)[k..], ex[l.ecurr..]) == total
  }

  lemma {:induction false} ProgressingStart(l: Loop, ex: seq<Seg>, path: seq<nat>)
    requires Standing(l, path, 0) && l.ecurr == 0
    ensures var list := Items(l.nodes, path); Progressing(l, path, 0, ex, Work(list, ex), l.i + SplitCount(list, ex))
  {
    hide Work, SplitCount, NoDup;
    var list := Items(l.nodes, path);
    CompletesStart(list, ex);
    assert list[0..] == list && ex[0..] == ex;
  }

  lemma {:induction false} ProgressingEnd(l: Loop, path: seq<nat>, k: nat, ex: seq<Seg>, target: Option<seq<Seg>>, total: nat)
    requires Progressing(l, path, k, ex, target, total) && !Going(l, ex)
    ensures Chain(l.nodes, l.head, path) && target == Some(ToSegs(Items(l.nodes, path))) && total <= |l.nodes|
  {
    hide Work, SplitCount, ToSegs, NoDup;
    CompletesEnd(Items(l.nodes, path), k, ex, l.ecurr, target);
  }

  /** What it means that there is no next state, or that it is the one after an unlinking. */
  lemma {:induction false} TurnStops(l: Loop, path: seq<nat>, k: nat, ex: seq<Seg>, target: Option<seq<Seg>>, total: nat)
    requires Progressing(l, path, k, ex, target, total) && Going(l, ex)
    ensures Turn(l, ex).None? ==> |l.nodes| < total
    ensures Unlinks(l.nodes[l.fcurr].item, ex[l.ecurr]) ==> target == None && total <= |l.nodes|
  {
    hide Work, SplitCount, ToSegs, NoDup;
    WorkTurn(Items(l.nodes, path), k, ex, l.ecurr);
  }

  lemma {:induction false} ForeverFrom(l0: Loop, ex: seq<Seg>, turns: nat, l: Loop)
    requires Turns(l0, ex, turns) == Some(l) && (forall m :: 0 <= m < turns ==> GoesOn(l0, ex, m))
    requires Going(l, ex) && Unlinks(l.nodes[l.fcurr].item, ex[l.ecurr])
    ensures forall n: nat :: GoesOn(l0, ex, n)
  {
    hide Turns;
    forall n: nat
      ensures GoesOn(l0, ex, n)
    {
      if n >= turns {
        TurnsAdd(l0, ex, turns, n - turns);
        UnlinkingNeverEnds(l, ex, n - turns);
      }
    }
  }

  /** Every other turn makes progress. */
  lemma {:induction false} TurnKeeps(l: Loop, path: seq<nat>, k: nat, ex: seq<Seg>, target: Option<seq<Seg>>, total: nat)
    returns (path': seq<nat>, k': nat)
    requires Progressing(l, path, k, ex, target, total) && Going(l, ex)
    requires Turn(l, ex).Some? && !Unlinks(l.nodes[l.fcurr].item, ex[l.ecurr])
    ensures var l' := Turn(l, ex).value;
            && Progressing(l', path', k', ex, target, total) && |l'.nodes| == |l.nodes| && k' <= |path'| && l'.ecurr <= |ex|
            && |path'| - k' + 2 * (|ex| - l'.ecurr) < |path| - k + 2 * (|ex| - l.ecurr)
  {
    hide Work, SplitCount, ToSegs, NoDup, Completes, Turn;
    var f, e := l.nodes[l.fcurr].item, ex[l.ecurr];
    if f.base < e.base && f.end > e.base {
      if f.end > e.end {
        SplitTurn(l, path, k, ex, target, total);
        path', k' := Spliced(path, k, l.i), k + 1;
      } else {
        CutTurn(l, path, k, ex, target, total);
        path', k' := path, k + 1;
      }
    } else if f.base >= e.base && f.base < e.end {
      TrimTurn(l, path, k, ex, target, total);
      path', k' := path, k;
    } else {
      SkipTurn(l, path, k, ex, target, total);
      path', k' := path, k + 1;
    }
  }

  /** The part of `Progressing` that is about the list and not about its links. */
  ghost predicate OnList(items: seq<Item>, k: nat, ex: seq<Seg>, ecurr: nat, i: nat, target: Option<seq<Seg>>, total: nat) {
    && k <= |items| && ecurr <= |ex| && Completes(items, k, ex, ecurr, target)
    && i + SplitCount(items[k..], ex[ecurr..]) == total
  }

  lemma {:induction false} SplitOnList(items: seq<Item>, k: nat, ex: seq<Seg>, ecurr: nat, i: nat, target: Option<seq<Seg>>, total: nat)
    requires OnList(items, k, ex, ecurr, i, target, total) && k < |items| && ecurr < |ex|
    requires items[k].base < ex[ecurr].base && items[k].end > ex[ecurr].base && items[k].end > ex[ecurr].end
    ensures var f, e := items[k], ex[ecurr];
            var cut, part := f.(len := e.base - f.base), Item(e.end, f.end - e.end, 0);
            OnList(items[..k] + [cut] + ([part] + items[k + 1..]), k + 1, ex, ecurr + 1, i + 1, target, total)
  {
    hide Work, SplitCount, ToSegs, Completes;
    var f, e := items[k], ex[ecurr];
    var cut, part := f.(len := e.base - f.base), Item(e.end, f.end - e.end, 0);
    WorkTurn(items, k, ex, ecurr);
    Pass(items, k, ex, ecurr, target, cut, [part] + items[k + 1..], ecurr + 1);
  }

  lemma {:induction false} CutOnList(items: seq<Item>, k: nat, ex: seq<Seg>, ecurr: nat, i: nat, target: Option<seq<Seg>>, total: nat)
    requires OnList(items, k, ex, ecurr, i, target, total) && k < |items| && ecurr < |ex|
    requires items[k].base < ex[ecurr].base && items[k].end > ex[ecurr].base && items[k].end <= ex[ecurr].end
    ensures OnList(items[k := items[k].(len := ex[ecurr].base - items[k].base)], k + 1, ex, ecurr, i, target, total)
  {
    hide Work, SplitCount, ToSegs, Completes;
    var cut, rest := items[k].(len := ex[ecurr].base - items[k].base), items[k + 1..];
    WorkTurn(items, k, ex, ecurr);
    Pass(items, k, ex, ecurr, target, cut, rest, ecurr);
    assert items[..k] + [cut] + rest == items[k := cut];
  }

  lemma {:induction false} TrimOnList(items: seq<Item>, k: nat, ex: seq<Seg>, ecurr: nat, i: nat, target: Option<seq<Seg>>, total: nat)
    requires OnList(items, k, ex, ecurr, i, target, total) && k < |items| && ecurr < |ex|
    requires ex[ecurr].base <= items[k].base < ex[ecurr].end <= items[k].end
    ensures var f, e := items[k], ex[ecurr];
            OnList(items[k := Item(e.end, f.end - e.end, f.end)], k, ex, ecurr + 1, i, target, total)
  {
    hide Work, SplitCount, ToSegs;
    var f, e, rest := items[k], ex[ecurr], items[k + 1..];
    var it := Item(e.end, f.end - e.end, f.end);
    WorkTurn(items, k, ex, ecurr);
    assert items[k := it][..k] == items[..k] && items[k := it][k..] == [it] + rest;
  }

  lemma {:induction false} SkipOnList(items: seq<Item>, k: nat, ex: seq<Seg>, ecurr: nat, i: nat, target: Option<seq<Seg>>, total: nat)
    requires OnList(items, k, ex, ecurr, i, target, total) && k < |items| && ecurr < |ex|
    requires !(items[k].base < ex[ecurr].base && items[k].end > ex[ecurr].base) && !(ex[ecurr].base <= items[k].base < ex[ecurr].end)
    ensures OnList(items, k + 1, ex, ecurr, i, target, total)
  {
    hide Work, SplitCount, ToSegs, Completes;
    var rest := items[k + 1..];
    WorkTurn(items, k, ex, ecurr);
    Pass(items, k, ex, ecurr, target, items[k], rest, ecurr);
    assert items[..k] + [items[k]] + rest == items;
  }

  /** `Progressing` is `Standing` and `OnList`. */
  lemma {:induction false} ProgressingMeans(l: Loop, path: seq<nat>, k: nat, ex: seq<Seg>, target: Option<seq<Seg>>, total: nat)
    requires Progressing(l, path, k, ex, target, total) && 0 <= l.fcurr < |l.nodes|
    ensures Standing(l, path, k) && k < |path| && l.fcurr == path[k] && forall j :: 0 <= j < |path| ==> path[j] < |l.nodes|
    ensures OnList(Items(l.nodes, path), k, ex, l.ecurr, l.i, target, total) && |Items(l.nodes, path)| == |path|
    ensures Items(l.nodes, path)[k] == l.nodes[l.fcurr].item
  {
    hide Work, SplitCount, ToSegs, NoDup, Completes;
  }

  lemma {:induction false} ProgressingFrom(l: Loop, path: seq<nat>, k: nat, items: seq<Item>, ex: seq<Seg>,
                                           target: Option<seq<Seg>>, total: nat)
    requires Standing(l, path, k) && items == Items(l.nodes, path) && OnList(items, k, ex, l.ecurr, l.i, target, total)
    ensures Progressing(l, path, k, ex, target, total)
  {
    hide Work, SplitCount, ToSegs, NoDup, Completes;
  }

  lemma {:induction false} SplitTurn(l: Loop, path: seq<nat>, k: nat, ex: seq<Seg>, target: Option<seq<Seg>>, total: nat)
    requires Progressing(l, path, k, ex, target, total) && Going(l, ex) && Turn(l, ex).Some?
    requires var f, e := l.nodes[l.fcurr].item, ex[l.ecurr]; f.base < e.base && f.end > e.base && f.end > e.end
    ensures k < |path|
    ensures var l' := Turn(l, ex).value;
            Progressing(l', Spliced(path, k, l.i), k + 1, ex, target, total)
            && |l'.nodes| == |l.nodes| && l'.ecurr == l.ecurr + 1
  {
    hide Standing, Items, OnList, Progressing;
    ProgressingMeans(l, path, k, ex, target, total);
    var l', items := Turn(l, ex).value, Items(l.nodes, path);
    var f, e := items[k], ex[l.ecurr];
    LinkIn(l, path, k, f.(len := e.base - f.base), Item(e.end, f.end - e.end, 0), l');
    SplitOnList(items, k, ex, l.ecurr, l.i, target, total);
    ProgressingFrom(l', Spliced(path, k, l.i), k + 1, Items(l'.nodes, Spliced(path, k, l.i)), ex, target, total);
  }

  lemma {:induction false} CutTurn(l: Loop, path: seq<nat>, k: nat, ex: seq<Seg>, target: Option<seq<Seg>>, total: nat)
    requires Progressing(l, path, k, ex, target, total) && Going(l, ex)
    requires var f, e := l.nodes[l.fcurr].item, ex[l.ecurr]; f.base < e.base && f.end > e.base && f.end <= e.end
    ensures Turn(l, ex).Some?
    ensures var l' := Turn(l, ex).value;
            Progressing(l', path, k + 1, ex, target, total) && |l'.nodes| == |l.nodes| && k < |path| && l'.ecurr == l.ecurr
  {
    hide Standing, Items, OnList, Progressing;
    ProgressingMeans(l, path, k, ex, target, total);
    var l', items := Turn(l, ex).value, Items(l.nodes, path);
    var f, e := items[k], ex[l.ecurr];
    MoveOn(l, path, k, f.(len := e.base - f.base), l');
    CutOnList(items, k, ex, l.ecurr, l.i, target, total);
    ProgressingFrom(l', path, k + 1, Items(l'.nodes, path), ex, target, total);
  }

  lemma {:induction false} TrimTurn(l: Loop, path: seq<nat>, k: nat, ex: seq<Seg>, target: Option<seq<Seg>>, total: nat)
    requires Progressing(l, path, k, ex, target, total) && Going(l, ex)
    requires var f, e := l.nodes[l.fcurr].item, ex[l.ecurr]; e.base <= f.base < e.end <= f.end
    ensures Turn(l, ex).Some?
    ensures var l' := Turn(l, ex).value;
            Progressing(l', path, k, ex, target, total) && |l'.nodes| == |l.nodes| && k < |path| && l'.ecurr == l.ecurr + 1
  {
    hide Standing, Items, OnList, Progressing;
    ProgressingMeans(l, path, k, ex, target, total);
    var l', items := Turn(l, ex).value, Items(l.nodes, path);
    var f, e := items[k], ex[l.ecurr];
    MoveOn(l, path, k, Item(e.end, f.end - e.end, f.end), l');
    TrimOnList(items, k, ex, l.ecurr, l.i, target, total);
    ProgressingFrom(l', path, k, Items(l'.nodes, path), ex, target, total);
  }

  lemma {:induction false} SkipTurn(l: Loop, path: seq<nat>, k: nat, ex: seq<Seg>, target: Option<seq<Seg>>, total: nat)
    requires Progressing(l, path, k, ex, target, total) && Going(l, ex)
    requires var f, e := l.nodes[l.fcurr].item, ex[l.ecurr];
             !(f.base < e.base && f.end > e.base) && !(e.base <= f.base < e.end)
    ensures Turn(l, ex).Some?
    ensures var l' := Turn(l, ex).value;
            Progressing(l', path, k + 1, ex, target, total) && |l'.nodes| == |l.nodes| && k < |path| && l'.ecurr == l.ecurr
  {
    hide Standing, Items, OnList, Progressing;
    ProgressingMeans(l, path, k, ex, target, total);
    var l', items := Turn(l, ex).value, Items(l.nodes, path);
    assert l.nodes[path[k] := l.nodes[path[k]].(item := items[k])] == l.nodes && items[k := items[k]] == items;
    MoveOn(l, path, k, items[k], l');
    SkipOnList(items, k, ex, l.ecurr, l.i, target, total);
    ProgressingFrom(l', path, k + 1, Items(l'.nodes, path), ex, target, total);
  }

  lemma {:induction false} NoTurns(l: Loop, ex: seq<Seg>)
    ensures Turns(l, ex, 0) == Some(l)
  {
  }

  /** One more turn after `turns` of them. */
  lemma {:induction false} OneMore(l0: Loop, ex: seq<Seg>, turns: nat, l: Loop)
    requires Turns(l0, ex, turns) == Some(l) && Going(l, ex)
    ensures GoesOn(l0, ex, turns) && Turns(l0, ex, turns + 1) == Turn(l, ex)
  {
    TurnsAdd(l0, ex, turns, 1);
    assert Turn(l, ex).Some? ==> Turns(Turn(l, ex).value, ex, 0) == Turn(l, ex);
  }

  /** The list read off its links. */
  method ReadOff(nodes: seq<Node>, head: int, ghost path: seq<nat>) returns (list: seq<Item>)
    requires Chain(nodes, head, path)
    ensures list == Items(nodes, path)
  {
    list := [];
    var curr := head;
    ghost var j := 0;
    while curr != -1
      invariant j <= |path| && curr == At(path, j) && list == Items(nodes, path)[..j]
      decreases |path| - j
    {
      list := list + [nodes[curr].item];
      curr := nodes[curr].next;
      j := j + 1;
    }
  }
}
