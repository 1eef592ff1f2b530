/**
  The stacks of processes over runs of creations, touches, exits and heap operations. `MMU_alloc_stack` hands stacks out downwards, ten
  pages each; `MMU_free_stack` releases ten pages upwards. So an exit takes the nine lower pages of the stack created
  just before, and leaves its own nine lower pages behind.
 */
module StackRuns {
  import opened AddressSpace
  import M = Mmu

  /** The top page of the stack of the process created as number `j`. */
  function Top(j: nat): int {
    M.FIRST_STACK - 10 * j
  }

  predicate InStack(w: Page, j: nat) {
    Top(j) - 10 < w <= Top(j)
  }

  datatype State = State(space: Space, next: nat)

  /** A process is created, some page is touched, the process created as number `j` exits, or a heap page is dealt with. */
  datatype Event = Created | Touched(v: Page) | Exited(j: nat) | Heap(op: Op)

  /** Stack addresses are left for a new process; only processes that were created exit. */
  predicate Enabled(st: State, e: Event) {
    match e
    case Created => 9 <= Top(st.next)
    case Touched(_) => true
    case Exited(j) => j < st.next && 0 <= Top(j)
    case Heap(op) => M.FIRST_STACK < op.v
  }

  ghost function Step(st: State, e: Event): State
    requires Enabled(st, e)
  {
    match e
    case Created => State(M.DemandDown(st.space, Top(st.next), 10), st.next + 1)
    case Touched(v) => st.(space := Fault(st.space, v))
    case Exited(j) => st.(space := ReleaseRange(st.space, Top(j), 10))
    case Heap(op) => st.(space := AddressSpace.Step(st.space, op))
  }

  ghost predicate EnabledRun(st: State, events: seq<Event>)
    decreases |events|
  {
    events == [] || (Enabled(st, events[0]) && EnabledRun(Step(st, events[0]), events[1..]))
  }

  ghost function Run(st: State, events: seq<Event>): State
    requires EnabledRun(st, events)
    decreases |events|
  {
    if events == [] then st else Run(Step(st, events[0]), events[1..])
  }

  /** The event unmaps page `w` of stack `j`: the top page goes with its own process, the others with the next one. */
  predicate Takes(e: Event, w: Page, j: nat) {
    e.Exited? && e.j == if w == Top(j) then j else j + 1
  }

  /** Of stack `j`, the ten pages released for process `m` hold the top page, if they are its own, or the rest. */
  lemma {:induction false} ReleasedPages(m: nat, w: Page, j: nat)
    requires InStack(w, j)
    ensures Top(m) <= w < Top(m) + 10 <==> Takes(Exited(m), w, j)
  {
  }

  /** Allocating a stack maps nothing, and reserves pages of that stack only. */
  lemma {:induction false} DemandDownPages(s: Space, v: Page, n: nat, w: Page)
    requires n <= v + 1
    ensures IsMapped(M.DemandDown(s, v, n), w) <==> IsMapped(s, w)
    ensures !(v - n < w <= v) ==> (w in M.DemandDown(s, v, n).pages <==> w in s.pages)
    decreases n
  {
    hide Demand, IsMapped;
    if n > 0 {
      DemandDownPages(s, v, n - 1, w);
      DemandPages(M.DemandDown(s, v, n - 1), v - (n - 1));
    }
  }

  /** What is done for a heap page leaves the pages of stacks alone. */
  lemma {:induction false} HeapPage(s: Space, op: Op, w: Page)
    requires w != op.v
    ensures w in AddressSpace.Step(s, op).pages <==> w in s.pages
    ensures w in s.pages ==> AddressSpace.Step(s, op).pages[w] == s.pages[w]
  {
    hide Demand;
    DemandPages(s, op.v);
  }

  /** A mapped page of a stack that was handed out stays mapped exactly when the event does not take it. */
  lemma {:induction false} StepMapped(st: State, e: Event, w: Page, j: nat)
    requires Enabled(st, e) && InStack(w, j) && j < st.next && IsMapped(st.space, w)
    ensures IsMapped(Step(st, e).space, w) <==> !Takes(e, w, j)
    ensures Takes(e, w, j) ==> w !in Step(st, e).space.pages
  {
    hide M.DemandDown, ReleaseRange;
    match e
    case Created => DemandDownPages(st.space, Top(st.next), 10, w);
    case Touched(v) =>
    case Exited(m) =>
      ReleasedPages(m, w, j);
      ReleaseRangeUnmaps(st.space, Top(m), 10, w);
      if Takes(e, w, j) {
        M.ReleaseRangeGone(st.space, Top(m), 10, w);
      }
    case Heap(op) => HeapPage(st.space, op, w);
  }

  /** A page that is gone does not come back: its address is not handed out again. */
  lemma {:induction false} StepGone(st: State, e: Event, w: Page, j: nat)
    requires Enabled(st, e) && InStack(w, j) && j < st.next && w !in st.space.pages
    ensures w !in Step(st, e).space.pages
  {
    hide M.DemandDown, ReleaseRange;
    match e
    case Created =>
      DemandDownPages(st.space, Top(st.next), 10, w);
    case Touched(v) =>
    case Exited(m) => ReleaseRangeUnmaps(st.space, Top(m), 10, w);
    case Heap(op) => HeapPage(st.space, op, w);
  }

  lemma {:induction false} RunGone(st: State, events: seq<Event>, w: Page, j: nat)
    requires EnabledRun(st, events) && InStack(w, j) && j < st.next && w !in st.space.pages
    ensures w !in Run(st, events).space.pages
    decreases |events|
  {
    hide Enabled, InStack;
    if events != [] {
      StepGone(st, events[0], w, j);
      NextGrows(st, events[0]);
      RunGone(Step(st, events[0]), events[1..], w, j);
    }
  }

  lemma {:induction false} NextGrows(st: State, e: Event)
    requires Enabled(st, e)
    ensures st.next <= Step(st, e).next
  {
  }

  ghost predicate Spared(events: seq<Event>, w: Page, j: nat) {
    forall i :: 0 <= i < |events| ==> !Takes(events[i], w, j)
  }

  /**
    Over every run of creations, touches, exits and heap operations in any order: a page of the stack of process `j` that is in use stays
    so if and only if neither process `j` exits, for the top page, nor the process created next, for the nine others.
   */
  lemma {:induction false} RunKeepsPage(st: State, events: seq<Event>, w: Page, j: nat)
    requires EnabledRun(st, events) && InStack(w, j) && j < st.next && IsMapped(st.space, w)
    ensures IsMapped(Run(st, events).space, w) <==> Spared(events, w, j)
    decreases |events|
  {
    hide Enabled, InStack, IsMapped, Takes;
    if events != [] {
      var e, rest := events[0], events[1..];
      StepMapped(st, e, w, j);
      NextGrows(st, e);
      if Takes(e, w, j) {
        RunGone(Step(st, e), rest, w, j);
        GoneIsUnmapped(Run(st, events).space, w);
      } else {
        RunKeepsPage(Step(st, e), rest, w, j);
        assert forall i :: 0 <= i < |rest| ==> rest[i] == events[i + 1];
        assert Spared(events, w, j) <==> Spared(rest, w, j) by {
          SparedCons(events, w, j);
        }
      }
    }
  }

  lemma {:induction false} GoneIsUnmapped(s: Space, w: Page)
    ensures w !in s.pages ==> !IsMapped(s, w)
  {
  }

  lemma {:induction false} SparedCons(events: seq<Event>, w: Page, j: nat)
    requires events != []
    ensures Spared(events, w, j) <==> !Takes(events[0], w, j) && Spared(events[1..], w, j)
  {
    hide Takes;
    var rest := events[1..];
    assert forall i :: 0 <= i < |rest| ==> rest[i] == events[i + 1];
    if !Takes(events[0], w, j) && Spared(rest, w, j) {
      forall i | 0 <= i < |events|
        ensures !Takes(events[i], w, j)
      {
        assert i > 0 ==> events[i] == rest[i - 1];
      }
    }
  }

  /** Process `j` does not exit. */
  ghost predicate Lives(events: seq<Event>, j: nat) {
    forall i :: 0 <= i < |events| ==> events[i] != Exited(j)
  }

  /**
    So a process that lives through the run keeps every page of its stack that it uses, beyond the top one, if and
    only if the process created next lives too; the top page it keeps in any case.
   */
  lemma {:induction false} LiveStackIntact(st: State, events: seq<Event>, j: nat)
    requires EnabledRun(st, events) && j < st.next && Lives(events, j)
    ensures forall w: Page :: InStack(w, j) && IsMapped(st.space, w) ==>
              (IsMapped(Run(st, events).space, w) <==> w == Top(j) || Lives(events, j + 1))
  {
    hide EnabledRun, Run, IsMapped;
    forall w: Page | InStack(w, j) && IsMapped(st.space, w)
      ensures IsMapped(Run(st, events).space, w) <==> w == Top(j) || Lives(events, j + 1)
    {
      RunKeepsPage(st, events, w, j);
    }
  }
}
