/**
  The cooperative scheduler of src/proc.c as a transition system. A state is taken
  outside critical sections, with no switch pending: where a hardware interrupt can arrive if
  the processor's interrupt flag is set. It is set if the running process has it set, and in
  the tail of the trap that switched to it, whatever flags the return from the trap will load:
  `IRQ_enable` has executed STI by then.
  `yielding` marks the gap between the end of a critical section that put the running
  process to sleep and the yield that follows it; interrupts may arrive in that gap.
 */
module Scheduler {
  import opened Basics

  type Pid = nat
  type Qid = nat

  /** `main_proc`, which runs when no process is ready. */
  const MAIN: Pid := 0

  datatype Sched = Sched(
    curr: Pid,                      // curr_proc
    sleep: bool,                    // proc_state.sleep_curr
    ready: seq<Pid>,                // proc_state.ready_queue
    waits: map<Qid, seq<Pid>>,      // the wait queues of the drivers
    live: set<Pid>,                 // proc_state.procs
    yielding: bool,
    unmasked: set<Pid>,             // processes that run with the interrupt flag set
    tail: bool)                     // the trap that chose curr has not been left for sure

  function Waiting(s: Sched, q: Qid): seq<Pid> {
    if q in s.waits then s.waits[q] else []
  }

  // ------------------------------------------------------------------
  // Operations
  // ------------------------------------------------------------------

  /** The running process leaves its outermost critical section, which sets the interrupt flag. */
  function Unmask(s: Sched): Sched {
    s.(unmasked := s.unmasked + {s.curr}, tail := false)
  }

  /** The critical section of `PROC_block_on`; the yield is still to come. */
  function Block(s: Sched, q: Qid): Sched {
    Unmask(s).(waits := s.waits[q := Waiting(s, q) + [s.curr]], sleep := true, yielding := true)
  }

  /** `PROC_unblock_head`. */
  function WakeHead(s: Sched, q: Qid): Sched {
    if Waiting(s, q) == [] then s
    else s.(ready := s.ready + [Waiting(s, q)[0]], waits := s.waits[q := Waiting(s, q)[1..]])
  }

  /** `PROC_unblock_all`. */
  function WakeAll(s: Sched, q: Qid): Sched {
    s.(ready := s.ready + Waiting(s, q), waits := s.waits[q := []])
  }

  /** Choose the next process from `ready` and switch to it. */
  function Dispatch(s: Sched, ready: seq<Pid>): Sched {
    if ready == [] then s.(curr := MAIN, sleep := true, ready := [], yielding := false, tail := true)
    else s.(curr := ready[0], sleep := false, ready := ready[1..], yielding := false, tail := true)
  }

  /** The yield trap: `PROC_reschedule`, then the switch in `IRQ_generic_isr`. */
  function Yield(s: Sched): Sched {
    Dispatch(s, if s.sleep then s.ready else s.ready + [s.curr])
  }

  /** `PROC_create_process`: it passes through the critical section of `MMU_alloc_stack`; the saved flags of a new process are zero. */
  function Create(s: Sched, p: Pid): Sched {
    s.(ready := s.ready + [p], live := s.live + {p}, unmasked := s.unmasked + {s.curr} - {p}, tail := false)
  }

  /** `process_exit`: the running process is gone, another one is chosen. */
  function Exit(s: Sched): Sched {
    Dispatch(s.(live := s.live - {s.curr}, unmasked := s.unmasked - {s.curr}), s.ready)
  }

  /** One turn of the loop of `PROC_run` up to its yield. */
  function MainSleeps(s: Sched): Sched {
    Unmask(s).(sleep := true, yielding := true)
  }

  // ------------------------------------------------------------------
  // The transition system
  // ------------------------------------------------------------------

  datatype Event =
    | BlockOn(q: Qid)
    | UnblockHead(q: Qid)
    | UnblockAll(q: Qid)
    | YieldTrap
    | CreateProcess(p: Pid)
    | ExitProcess
    | RunMain
    | Section

  /** A hardware interrupt can arrive. */
  predicate CanInterrupt(s: Sched) {
    s.tail || s.curr in s.unmasked
  }

  /** Interrupts wake processes whenever the interrupt flag is set; everything else is done by the running process. */
  predicate Enabled(s: Sched, e: Event) {
    match e
    case BlockOn(_) => !s.yielding && s.curr != MAIN
    case UnblockHead(_) => CanInterrupt(s)
    case UnblockAll(_) => CanInterrupt(s)
    case YieldTrap => s.yielding || s.curr != MAIN
    case CreateProcess(p) => !s.yielding && p != MAIN && p !in s.live
    case ExitProcess => !s.yielding && s.curr != MAIN
    case RunMain => !s.yielding && s.curr == MAIN && s.ready != []
    case Section => !s.yielding
  }

  function Step(s: Sched, e: Event): Sched {
    match e
    case BlockOn(q) => Block(s, q)
    case UnblockHead(q) => WakeHead(s, q)
    case UnblockAll(q) => WakeAll(s, q)
    case YieldTrap => Yield(s)
    case CreateProcess(p) => Create(s, p)
    case ExitProcess => Exit(s)
    case RunMain => MainSleeps(s)
    case Section => Unmask(s)
  }

  ghost predicate EnabledRun(s: Sched, events: seq<Event>)
    decreases |events|
  {
    events == [] || (Enabled(s, events[0]) && EnabledRun(Step(s, events[0]), events[1..]))
  }

  function Run(s: Sched, events: seq<Event>): Sched
    decreases |events|
  {
    if events == [] then s else Run(Step(s, events[0]), events[1..])
  }

  lemma {:induction false} RunCons(s: Sched, e: Event, rest: seq<Event>)
    ensures Run(s, [e] + rest) == Run(Step(s, e), rest)
    ensures EnabledRun(s, [e] + rest) <==> Enabled(s, e) && EnabledRun(Step(s, e), rest)
  {
    assert ([e] + rest)[1..] == rest;
  }

  const BOOT: Sched := Sched(MAIN, false, [], map[], {}, false, {MAIN}, false)

  // ------------------------------------------------------------------
  // Every process is in one place
  // ------------------------------------------------------------------

  /** No process is queued twice, neither in one queue nor in two. */
  ghost predicate Unique(s: Sched) {
    && NoDup(s.ready)
    && (forall q :: NoDup(Waiting(s, q)))
    && (forall q, p :: p in Waiting(s, q) ==> p !in s.ready)
    && (forall q, r, p :: p in Waiting(s, q) && p in Waiting(s, r) ==> q == r)
  }

  ghost predicate Queued(s: Sched, p: Pid) {
    p in s.ready || exists q :: p in Waiting(s, q)
  }

  /** Queued processes are live, main is never queued, and the running process is queued exactly while it is going to sleep. */
  ghost predicate Placed(s: Sched) {
    && MAIN !in s.live
    && (forall p :: p in s.ready ==> p in s.live)
    && (forall q, p :: p in Waiting(s, q) ==> p in s.live)
    && (forall p :: p in s.live ==> p == s.curr || Queued(s, p))
    && (s.curr != MAIN ==> s.curr in s.live && s.sleep == s.yielding && (Queued(s, s.curr) <==> s.sleep))
    && (s.yielding ==> s.sleep)
  }

  ghost predicate Inv(s: Sched) {
    Unique(s) && Placed(s)
  }

  lemma {:induction false} AppendNoDup(s: seq<Pid>, p: Pid)
    requires NoDup(s) && p !in s
    ensures NoDup(s + [p])
  {
  }

  lemma {:induction false} BlockInv(s: Sched, q: Qid)
    requires Inv(s) && Enabled(s, BlockOn(q))
    ensures Inv(Block(s, q))
  {
    var s' := Block(s, q);
    assert !Queued(s, s.curr);
    assert Waiting(s', q) == Waiting(s, q) + [s.curr];
    assert forall r :: r != q ==> Waiting(s', r) == Waiting(s, r);
    AppendNoDup(Waiting(s, q), s.curr);
    assert s.curr in Waiting(s', q);
    forall p | p in s.live
      ensures p == s'.curr || Queued(s', p)
    {
      if p != s.curr && p !in s.ready {
        var r :| p in Waiting(s, r);
        assert p in Waiting(s', r);
      }
    }
  }

  lemma {:induction false} WakeHeadInv(s: Sched, q: Qid)
    requires Inv(s)
    ensures Inv(WakeHead(s, q))
    ensures forall p :: Queued(WakeHead(s, q), p) <==> Queued(s, p)
  {
    var s', w := WakeHead(s, q), Waiting(s, q);
    if w != [] {
      assert w == [w[0]] + w[1..];
      assert w[0] in w && Queued(s, w[0]);
      assert Waiting(s', q) == w[1..];
      assert forall r :: r != q ==> Waiting(s', r) == Waiting(s, r);
      AppendNoDup(s.ready, w[0]);
      forall p
        ensures Queued(s', p) <==> Queued(s, p)
      {
        if Queued(s, p) && p !in s.ready {
          var r :| p in Waiting(s, r);
          assert p in Waiting(s', r) || p in s'.ready;
        }
      }
    }
  }

  lemma {:induction false} WakeAllInv(s: Sched, q: Qid)
    requires Inv(s)
    ensures Inv(WakeAll(s, q))
    ensures forall p :: Queued(WakeAll(s, q), p) <==> Queued(s, p)
  {
    var s', w := WakeAll(s, q), Waiting(s, q);
    assert Waiting(s', q) == [];
    assert forall r :: r != q ==> Waiting(s', r) == Waiting(s, r);
    forall i, j | 0 <= i < |s.ready| && 0 <= j < |w|
      ensures s.ready[i] != w[j]
    {
      assert w[j] in Waiting(s, q) && s.ready[i] in s.ready;
    }
    forall p
      ensures Queued(s', p) <==> Queued(s, p)
    {
      if Queued(s, p) && p !in s.ready {
        var r :| p in Waiting(s, r);
        assert p in Waiting(s', r) || p in s'.ready;
      }
    }
  }

  lemma {:induction false} CreateInv(s: Sched, p: Pid)
    requires Inv(s) && Enabled(s, CreateProcess(p))
    ensures Inv(Create(s, p))
  {
    var s' := Create(s, p);
    AppendNoDup(s.ready, p);
    assert forall r :: Waiting(s', r) == Waiting(s, r);
    forall o | o in s'.live
      ensures o == s'.curr || Queued(s', o)
    {
      if o != p && o != s.curr && o !in s.ready {
        var r :| o in Waiting(s, r);
        assert o in Waiting(s', r);
      }
    }
  }

  /** Switching to the head of `ready` when everything live is in `ready` or waiting. */
  lemma {:induction false} DispatchInv(s: Sched, ready: seq<Pid>)
    requires Unique(s.(ready := ready)) && MAIN !in s.live
    requires forall p :: p in s.live <==> Queued(s.(ready := ready), p)
    ensures Inv(Dispatch(s, ready))
  {
    var t, s' := s.(ready := ready), Dispatch(s, ready);
    assert forall r :: Waiting(s', r) == Waiting(t, r);
    assert forall p :: p in ready ==> Queued(t, p);
    assert forall q, p :: p in Waiting(t, q) ==> Queued(t, p);
    if ready != [] {
      assert ready == [ready[0]] + ready[1..];
      assert forall p :: p in ready <==> p == ready[0] || p in ready[1..];
      HeadLeaves(t, s');
    }
    forall p | p in s'.live
      ensures p == s'.curr || Queued(s', p)
    {
      assert Queued(t, p);
      if p !in ready {
        var r :| p in Waiting(t, r);
        assert p in Waiting(s', r);
      }
    }
  }

  /** The process taken off the ready queue is in no other queue. */
  lemma {:induction false} HeadLeaves(t: Sched, s': Sched)
    requires Unique(t) && t.ready != [] && s'.ready == t.ready[1..] && s'.waits == t.waits
    ensures Unique(s') && !Queued(s', t.ready[0])
  {
    assert t.ready == [t.ready[0]] + t.ready[1..];
    assert forall p :: p in t.ready <==> p == t.ready[0] || p in t.ready[1..];
    assert forall r :: Waiting(s', r) == Waiting(t, r);
  }

  lemma {:induction false} SameQueued(s: Sched, t: Sched, p: Pid)
    requires t.waits == s.waits && Queued(s, p) && (p in s.ready ==> p in t.ready)
    ensures Queued(t, p)
  {
    if p !in s.ready {
      var r :| p in Waiting(s, r);
      assert p in Waiting(t, r);
    }
  }

  lemma {:induction false} YieldInv(s: Sched)
    requires Inv(s) && Enabled(s, YieldTrap)
    ensures Inv(Yield(s))
  {
    var ready := if s.sleep then s.ready else s.ready + [s.curr];
    var t := s.(ready := ready);
    assert forall r :: Waiting(t, r) == Waiting(s, r);
    if !s.sleep {
      assert !Queued(s, s.curr);
      AppendNoDup(s.ready, s.curr);
    }
    forall p
      ensures p in s.live <==> Queued(t, p)
    {
      if p in s.live && Queued(s, p) {
        SameQueued(s, t, p);
      }
      if Queued(t, p) && p !in t.ready {
        var r :| p in Waiting(t, r);
        assert p in Waiting(s, r);
      }
    }
    DispatchInv(s, ready);
  }

  lemma {:induction false} ExitInv(s: Sched)
    requires Inv(s) && Enabled(s, ExitProcess)
    ensures Inv(Exit(s))
  {
    var t := s.(live := s.live - {s.curr}, unmasked := s.unmasked - {s.curr});
    assert forall r :: Waiting(t, r) == Waiting(s, r);
    assert t.(ready := s.ready) == t;
    assert !Queued(s, s.curr);
    forall p
      ensures p in t.live <==> Queued(t, p)
    {
      if p in t.live {
        SameQueued(s, t, p);
      }
      if Queued(t, p) {
        SameQueued(t, s, p);
        if p !in s.ready {
          var r :| p in Waiting(s, r);
        }
      }
    }
    DispatchInv(t, s.ready);
  }

  lemma {:induction false} UnmaskInv(s: Sched)
    requires Inv(s)
    ensures Inv(Unmask(s))
  {
    assert forall r :: Waiting(Unmask(s), r) == Waiting(s, r);
    assert forall p :: Queued(Unmask(s), p) <==> Queued(s, p);
  }

  lemma {:induction false} StepInv(s: Sched, e: Event)
    requires Inv(s) && Enabled(s, e)
    ensures Inv(Step(s, e))
  {
    hide Inv;
    match e
    case BlockOn(q) => BlockInv(s, q);
    case UnblockHead(q) => WakeHeadInv(s, q);
    case UnblockAll(q) => WakeAllInv(s, q);
    case YieldTrap => YieldInv(s);
    case CreateProcess(p) => CreateInv(s, p);
    case ExitProcess => ExitInv(s);
    case RunMain => MainSleepsInv(s);
    case Section => UnmaskInv(s);
  }

  lemma {:induction false} MainSleepsInv(s: Sched)
    requires Inv(s) && s.curr == MAIN
    ensures Inv(MainSleeps(s))
  {
    var s' := MainSleeps(s);
    assert forall r :: Waiting(s', r) == Waiting(s, r);
    forall p | p in s.live
      ensures Queued(s', p)
    {
      SameQueued(s, s', p);
    }
  }

  /** A position in one of the queues. */
  datatype Place = InReady(i: nat) | InWait(q: Qid, i: nat)

  ghost predicate At(s: Sched, p: Pid, place: Place) {
    match place
    case InReady(i) => i < |s.ready| && s.ready[i] == p
    case InWait(q, i) => i < |Waiting(s, q)| && Waiting(s, q)[i] == p
  }

  ghost predicate QueuedOnce(s: Sched, p: Pid) {
    exists a :: At(s, p, a) && forall b :: At(s, p, b) ==> b == a
  }

  ghost predicate NotQueued(s: Sched, p: Pid) {
    forall a :: !At(s, p, a)
  }

  /**
    Running and in no queue; or running, about to yield, and already in exactly one place
    of one queue; or not running and in exactly one place of one queue. Main is in none.
   */
  ghost predicate OnePlace(s: Sched) {
    && NotQueued(s, MAIN)
    && forall p :: p in s.live ==>
         || (s.curr == p && !s.sleep && NotQueued(s, p))
         || (s.curr == p && s.sleep && QueuedOnce(s, p))
         || (s.curr != p && QueuedOnce(s, p))
  }

  lemma {:induction false} AtIsQueued(s: Sched, p: Pid, a: Place)
    requires At(s, p, a)
    ensures Queued(s, p)
  {
    if a.InWait? {
      assert p in Waiting(s, a.q);
    }
  }

  lemma {:induction false} QueuedHasPlace(s: Sched, p: Pid)
    requires Unique(s) && Queued(s, p)
    ensures QueuedOnce(s, p)
  {
    var a: Place;
    if p in s.ready {
      var i :| 0 <= i < |s.ready| && s.ready[i] == p;
      a := InReady(i);
    } else {
      var q :| p in Waiting(s, q);
      var i :| 0 <= i < |Waiting(s, q)| && Waiting(s, q)[i] == p;
      a := InWait(q, i);
    }
    assert At(s, p, a);
    forall b | At(s, p, b)
      ensures b == a
    {
      if b.InWait? {
        assert p in Waiting(s, b.q);
      }
    }
  }

  lemma {:induction false} InvOnePlace(s: Sched)
    requires Inv(s)
    ensures OnePlace(s)
  {
    hide At, QueuedOnce;
    forall a
      ensures !At(s, MAIN, a)
    {
      if At(s, MAIN, a) {
        AtIsQueued(s, MAIN, a);
      }
    }
    forall p | p in s.live
      ensures s.curr == p && !s.sleep ==> NotQueued(s, p)
      ensures s.curr == p && s.sleep ==> QueuedOnce(s, p)
      ensures s.curr != p ==> QueuedOnce(s, p)
    {
      if Queued(s, p) {
        QueuedHasPlace(s, p);
      } else {
        forall a
          ensures !At(s, p, a)
        {
          if At(s, p, a) {
            AtIsQueued(s, p, a);
          }
        }
      }
    }
  }

  lemma {:induction false} RunInv(s: Sched, events: seq<Event>)
    requires Inv(s) && EnabledRun(s, events)
    ensures Inv(Run(s, events))
    decreases |events|
  {
    hide Inv, Step, Enabled;
    if events != [] {
      StepInv(s, events[0]);
      RunInv(Step(s, events[0]), events[1..]);
    }
  }

  /** In every state reachable from boot, whatever interrupts arrive when, tails of traps included, each process is in exactly one place. */
  lemma {:induction false} EveryRunOnePlace(events: seq<Event>)
    requires EnabledRun(BOOT, events)
    ensures OnePlace(Run(BOOT, events))
  {
    RunInv(BOOT, events);
    InvOnePlace(Run(BOOT, events));
  }

  /** The running process is in a wait queue only on its way to its yield. */
  lemma {:induction false} RunningNotWaiting(s: Sched, q: Qid)
    requires Inv(s) && !s.yielding && s.curr != MAIN
    ensures s.curr !in Waiting(s, q)
  {
    if s.curr in Waiting(s, q) {
      assert Queued(s, s.curr);
    }
  }

  // ------------------------------------------------------------------
  // The interrupt flag
  // ------------------------------------------------------------------

  /** Main and every process on its way to sleep have the flag set; only live processes do. */
  ghost predicate Flags(s: Sched) {
    && MAIN in s.unmasked && MAIN !in s.live && (s.yielding ==> s.curr in s.unmasked)
    && (forall p :: p in s.unmasked ==> p == MAIN || p in s.live)
    && (s.curr == MAIN || s.curr in s.live) && (forall p :: p in s.ready ==> p in s.live)
    && (forall q, p :: p in Waiting(s, q) ==> p in s.live)
  }

  lemma {:induction false} StepFlags(s: Sched, e: Event)
    requires Inv(s) && Flags(s) && Enabled(s, e)
    ensures Flags(Step(s, e))
  {
    StepInv(s, e);
  }

  lemma {:induction false} RunFlags(s: Sched, events: seq<Event>)
    requires Inv(s) && Flags(s) && EnabledRun(s, events)
    ensures Flags(Run(s, events))
    decreases |events|
  {
    hide Inv, Flags, Step, Enabled;
    if events != [] {
      StepInv(s, events[0]);
      StepFlags(s, events[0]);
      RunFlags(Step(s, events[0]), events[1..]);
    }
  }

  /** The events that change the flag of process `p`, which runs when they happen. */
  predicate Sets(s: Sched, e: Event, p: Pid) {
    s.curr == p && (e.BlockOn? || e.RunMain? || e.Section? || (e.CreateProcess? && e.p != p))
  }

  /**
    In every reachable state interrupts can reach a process on its way to sleep, so no wake-up is shut out there, and
    main; only live processes have the flag set.
   */
  lemma {:induction false} EveryRunFlags(events: seq<Event>)
    requires EnabledRun(BOOT, events)
    ensures var s := Run(BOOT, events);
            MAIN in s.unmasked && (s.yielding ==> s.curr in s.unmasked) && forall p :: p in s.unmasked ==> p == MAIN || p in s.live
  {
    hide EnabledRun, Run;
    assert forall q :: Waiting(BOOT, q) == [];
    RunFlags(BOOT, events);
  }

  /** A process whose flag is off gets it set exactly by leaving a critical section itself. */
  lemma {:induction false} MaskedUntilSection(s: Sched, e: Event, p: Pid)
    requires p !in s.unmasked
    ensures p in Step(s, e).unmasked <==> Sets(s, e, p)
  {
  }

  /** No event of `events` is made by the running process: they are all wake-ups. */
  predicate OnlyWakeUps(events: seq<Event>) {
    forall i :: 0 <= i < |events| ==> events[i].UnblockHead? || events[i].UnblockAll?
  }

  /**
    Until then interrupts reach it in the tail of a trap and nowhere else: any number of them after the trap that
    dispatches it, and none after the first thing it does itself that is neither that nor another trap.
   */
  lemma {:induction false} MaskedTakesTail(s: Sched, e: Event, wakeUps: seq<Event>)
    requires OnlyWakeUps(wakeUps)
    ensures var s' := Run(s, [e] + wakeUps);
            s'.curr !in s'.unmasked ==>
              (CanInterrupt(s') <==> Reschedules(e) || (CanInterrupt(s) && (e.UnblockHead? || e.UnblockAll?)))
    decreases |wakeUps|
  {
    var s1 := Step(s, e);
    assert ([e] + wakeUps)[1..] == wakeUps;
    WakeUpsKeep(s1, wakeUps);
  }

  lemma {:induction false} WakeUpsKeep(s: Sched, wakeUps: seq<Event>)
    requires OnlyWakeUps(wakeUps)
    ensures var s' := Run(s, wakeUps); s'.curr == s.curr && s'.unmasked == s.unmasked && s'.tail == s.tail
    decreases |wakeUps|
  {
    if wakeUps != [] {
      WakeUpsKeep(Step(s, wakeUps[0]), wakeUps[1..]);
    }
  }

  // ------------------------------------------------------------------
  // Bounded waiting
  // ------------------------------------------------------------------

  /** The events in which `PROC_reschedule` is called. */
  predicate Reschedules(e: Event) {
    e.YieldTrap? || e.ExitProcess?
  }

  function Count(events: seq<Event>): nat
    decreases |events|
  {
    if events == [] then 0 else (if Reschedules(events[0]) then 1 else 0) + Count(events[1..])
  }

  /** Each call of `PROC_reschedule` moves a ready process one place forward and dispatches the first; nothing else moves it. */
  lemma {:induction false} ReadyAdvances(s: Sched, e: Event, k: nat)
    requires k < |s.ready|
    ensures !Reschedules(e) ==> k < |Step(s, e).ready| && Step(s, e).ready[k] == s.ready[k]
    ensures Reschedules(e) && k == 0 ==> Step(s, e).curr == s.ready[0]
    ensures Reschedules(e) && 0 < k ==> k - 1 < |Step(s, e).ready| && Step(s, e).ready[k - 1] == s.ready[k]
  {
  }

  /** A process at position k is dispatched by exactly the (k+1)-th rescheduling, whatever happens in between. */
  lemma {:induction false} BoundedWaiting(s: Sched, events: seq<Event>, k: nat)
    requires k < |s.ready|
    ensures Count(events) <= k ==>
              k - Count(events) < |Run(s, events).ready| && Run(s, events).ready[k - Count(events)] == s.ready[k]
    ensures Count(events) == k + 1 && Reschedules(events[|events| - 1]) ==> Run(s, events).curr == s.ready[k]
    decreases |events|
  {
    hide Step;
    if events != [] {
      var e, rest := events[0], events[1..];
      ReadyAdvances(s, e, k);
      if rest == [] {
      } else if !Reschedules(e) {
        BoundedWaiting(Step(s, e), rest, k);
      } else if 0 < k {
        BoundedWaiting(Step(s, e), rest, k - 1);
      } else if Reschedules(rest[|rest| - 1]) {
        CountLast(rest);
      }
    }
  }

  lemma {:induction false} CountLast(events: seq<Event>)
    requires events != [] && Reschedules(events[|events| - 1])
    ensures 0 < Count(events)
    decreases |events|
  {
    if |events| > 1 {
      CountLast(events[1..]);
    }
  }

  // ------------------------------------------------------------------
  // Queues are first in, first out
  // ------------------------------------------------------------------

  /** Who starts waiting in `q` by the event. */
  function Blocks(s: Sched, e: Event, q: Qid): seq<Pid> {
    if e == BlockOn(q) then [s.curr] else []
  }

  /** Who is woken from `q` by the event: the one that has waited longest, or all in the order they came. */
  function Wakes(s: Sched, e: Event, q: Qid): seq<Pid> {
    if e == UnblockHead(q) && Waiting(s, q) != [] then [Waiting(s, q)[0]]
    else if e == UnblockAll(q) then Waiting(s, q)
    else []
  }

  /** Who becomes ready by the event: those woken, the new process, the process that yields without going to sleep. */
  function Readies(s: Sched, e: Event): seq<Pid> {
    match e
    case UnblockHead(q) => Wakes(s, e, q)
    case UnblockAll(q) => Wakes(s, e, q)
    case CreateProcess(p) => [p]
    case YieldTrap => if s.sleep then [] else [s.curr]
    case BlockOn(_) => []
    case ExitProcess => []
    case RunMain => []
    case Section => []
  }

  /** The process a rescheduling chooses, unless it is main. */
  function Dispatches(s: Sched, e: Event): seq<Pid> {
    if Reschedules(e) && Step(s, e).curr != MAIN then [Step(s, e).curr] else []
  }

  /** Each event takes from the front of a wait queue and adds at its end. */
  lemma {:induction false} WaitFifo(s: Sched, e: Event, q: Qid)
    ensures Waiting(s, q) + Blocks(s, e, q) == Wakes(s, e, q) + Waiting(Step(s, e), q)
  {
    var w, w' := Waiting(s, q), Waiting(Step(s, e), q);
    if e == BlockOn(q) {
      assert w' == w + [s.curr];
    } else if e == UnblockHead(q) && w != [] {
      assert w == [w[0]] + w[1..] && w' == w[1..];
    } else if e == UnblockAll(q) {
      assert w' == [];
    } else {
      assert w' == w;
    }
  }

  /**
    So does it with the ready queue, whose head runs next; main is chosen exactly when nobody is ready. Who runs, runs
    until the next rescheduling.
   */
  lemma {:induction false} ReadyFifo(s: Sched, e: Event)
    requires Inv(s) && Enabled(s, e)
    ensures s.ready + Readies(s, e) == Dispatches(s, e) + Step(s, e).ready
    ensures Reschedules(e) ==> (Step(s, e).curr == MAIN <==> s.ready + Readies(s, e) == [])
    ensures !Reschedules(e) ==> Step(s, e).curr == s.curr
  {
    hide Inv;
    YieldsReady(s);
    if Reschedules(e) {
      var r := s.ready + Readies(s, e);
      assert r != [] ==> r == [r[0]] + r[1..];
      assert e.ExitProcess? ==> r == s.ready;
    } else {
      assert e.UnblockHead? && Waiting(s, e.q) == [] ==> s.ready + [] == s.ready;
    }
  }

  /** Main is not among those that can be chosen. */
  lemma {:induction false} YieldsReady(s: Sched)
    requires Inv(s)
    ensures MAIN !in s.ready
    ensures s.curr == MAIN && s.yielding ==> s.sleep
    ensures forall q :: MAIN !in Waiting(s, q)
  {
  }

  ghost function Blocked(s: Sched, events: seq<Event>, q: Qid): seq<Pid>
    decreases |events|
  {
    if events == [] then [] else Blocks(s, events[0], q) + Blocked(Step(s, events[0]), events[1..], q)
  }

  ghost function Woken(s: Sched, events: seq<Event>, q: Qid): seq<Pid>
    decreases |events|
  {
    if events == [] then [] else Wakes(s, events[0], q) + Woken(Step(s, events[0]), events[1..], q)
  }

  ghost function Readied(s: Sched, events: seq<Event>): seq<Pid>
    decreases |events|
  {
    if events == [] then [] else Readies(s, events[0]) + Readied(Step(s, events[0]), events[1..])
  }

  ghost function Dispatched(s: Sched, events: seq<Event>): seq<Pid>
    decreases |events|
  {
    if events == [] then [] else Dispatches(s, events[0]) + Dispatched(Step(s, events[0]), events[1..])
  }

  lemma {:induction false} Concatenate(a: seq<Pid>, b: seq<Pid>, c: seq<Pid>, d: seq<Pid>, e: seq<Pid>, f: seq<Pid>, g: seq<Pid>)
    requires a + b == c + d && d + e == f + g
    ensures a + (b + e) == (c + f) + g
  {
    assert a + (b + e) == (a + b) + e == (c + d) + e == c + (d + e) == c + (f + g) == (c + f) + g;
  }

  /**
    Over every run: those who waited in a queue and those who came to wait are, in this order, those who were woken and
    those who still wait; and those who were ready and those who became so are those who were dispatched and those who
    still are ready. Nobody overtakes, nobody is forgotten.
   */
  lemma {:induction false} RunFifo(s: Sched, events: seq<Event>, q: Qid)
    requires Inv(s) && EnabledRun(s, events)
    ensures Waiting(s, q) + Blocked(s, events, q) == Woken(s, events, q) + Waiting(Run(s, events), q)
    ensures s.ready + Readied(s, events) == Dispatched(s, events) + Run(s, events).ready
    decreases |events|
  {
    hide Inv, Step, Enabled, Waiting, Blocks, Wakes, Readies, Dispatches;
    if events == [] {
      assert Waiting(s, q) + [] == Waiting(s, q) == [] + Waiting(s, q) && s.ready + [] == s.ready == [] + s.ready;
    } else {
      var e, rest := events[0], events[1..];
      var s1, s' := Step(s, e), Run(s, events);
      StepInv(s, e);
      WaitFifo(s, e, q);
      ReadyFifo(s, e);
      RunFifo(s1, rest, q);
      Concatenate(Waiting(s, q), Blocks(s, e, q), Wakes(s, e, q), Waiting(s1, q), Blocked(s1, rest, q), Woken(s1, rest, q), Waiting(s', q));
      Concatenate(s.ready, Readies(s, e), Dispatches(s, e), s1.ready, Readied(s1, rest), Dispatched(s1, rest), s'.ready);
    }
  }

  /** The processes created and not gone, told from the events and who ran when they happened. */
  ghost function LiveAfter(s: Sched, events: seq<Event>, live: set<Pid>): set<Pid>
    decreases |events|
  {
    if events == [] then live
    else
      var e := events[0];
      var live' := if e.CreateProcess? then live + {e.p} else if e.ExitProcess? then live - {s.curr} else live;
      LiveAfter(Step(s, e), events[1..], live')
  }

  lemma {:induction false} RunLive(s: Sched, events: seq<Event>)
    ensures Run(s, events).live == LiveAfter(s, events, s.live)
    decreases |events|
  {
    if events != [] {
      RunLive(Step(s, events[0]), events[1..]);
    }
  }
}
