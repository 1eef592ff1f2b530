/**
  The read protocol of src/drivers/disk/ata.c on top of the scheduler: readers queue a
  request and block, the interrupt handler wakes the head of the wait queue, and the woken
  reader removes the head request, copies the data and issues the next command. Nothing at
  run time ties a woken reader to the request it removes; the invariant does.
 */
module AtaProtocol {
  import opened Scheduler

  type Lba = nat

  /** The wait queue `ata->blocked`. */
  const ATA: Qid := 1

  /** The device runs one read command at a time and raises one interrupt when its data is ready. */
  datatype Device = Idle | Busy(lba: Lba) | Data(lba: Lba)

  /** A request, with the process on whose stack it lives. */
  datatype Request = Request(owner: Pid, lba: Lba)

  /** Where a process is in `ata_read_block`. */
  datatype Pc =
    | Out                                  // not in it
    | Asked(lba: Lba)                      // in PROC_block_on
    | Taken(lba: Lba, head: Request)       // after LL_dequeue, which removed `head`
    | Copied                               // after ata_read

  datatype State = State(
    sched: Sched,
    dev: Device,
    requests: seq<Request>,                // ata->requests
    pc: map<Pid, Pc>,
    arrivals: seq<Request>,                // every request ever queued, in order
    served: seq<Request>,                  // every read that returned data, in order: who asked for what
    got: seq<Lba>,                         // and the block whose data it received
    failed: bool)                          // some read returned -1

  function PcOf(s: State, p: Pid): Pc {
    if p in s.pc then s.pc[p] else Out
  }

  // ------------------------------------------------------------------
  // Steps
  // ------------------------------------------------------------------

  /** `ata_read_block` up to the yield inside `PROC_block_on`. */
  function Ask(s: State, lba: Lba): State {
    var p := s.sched.curr;
    s.(dev := if s.requests == [] then Busy(lba) else s.dev,
       requests := s.requests + [Request(p, lba)],
       arrivals := s.arrivals + [Request(p, lba)],
       sched := Block(s.sched, ATA),
       pc := s.pc[p := Asked(lba)])
  }

  /** `ata_isr` when the command completes without error. */
  function Complete(s: State): State
    requires s.dev.Busy?
  {
    s.(dev := Data(s.dev.lba), sched := WakeHead(s.sched, ATA))
  }

  /** `ata_read_block` after the yield: the data check and `LL_dequeue`. That the queue is empty does not happen. */
  function Take(s: State): State
    requires PcOf(s, s.sched.curr).Asked?
  {
    var p := s.sched.curr;
    if !s.dev.Data? || s.requests == [] then s.(pc := s.pc[p := Out], failed := true)
    else s.(pc := s.pc[p := Taken(s.pc[p].lba, s.requests[0])], requests := s.requests[1..])
  }

  /** `ata_read`. */
  function Copy(s: State): State
    requires PcOf(s, s.sched.curr).Taken? && s.dev.Data?
  {
    var p := s.sched.curr;
    s.(dev := Idle, pc := s.pc[p := Copied],
       served := s.served + [Request(p, s.pc[p].lba)], got := s.got + [s.dev.lba])
  }

  /** The end of `ata_read_block`: initiate the next read. */
  function Issue(s: State): State {
    s.(dev := if s.requests == [] then s.dev else Busy(s.requests[0].lba), pc := s.pc[s.sched.curr := Out])
  }

  datatype Event = Other(e: Scheduler.Event) | AskFor(lba: Lba) | Interrupt | TakeHead | CopyData | IssueNext

  /** What the rest of the system may do: anything that does not touch `ata->blocked` and does not interrupt a read half way. */
  predicate Foreign(s: State, e: Scheduler.Event) {
    match e
    case UnblockHead(q) => q != ATA
    case UnblockAll(q) => q != ATA
    case BlockOn(q) => q != ATA && PcOf(s, s.sched.curr) == Out
    case YieldTrap => s.sched.yielding || PcOf(s, s.sched.curr) == Out
    case CreateProcess(p) => PcOf(s, p) == Out
    case ExitProcess => PcOf(s, s.sched.curr) == Out
    case RunMain => true
    case Section => true
  }

  predicate Enabled(s: State, e: Event) {
    var running := !s.sched.yielding && s.sched.curr != MAIN;
    match e
    case Other(f) => Scheduler.Enabled(s.sched, f) && Foreign(s, f)
    case AskFor(_) => running && PcOf(s, s.sched.curr) == Out
    case Interrupt => s.dev.Busy? && CanInterrupt(s.sched)
    case TakeHead => running && PcOf(s, s.sched.curr).Asked?
    case CopyData => running && PcOf(s, s.sched.curr).Taken? && s.dev.Data?
    case IssueNext => running && PcOf(s, s.sched.curr).Copied?
  }

  function Step(s: State, e: Event): State
    requires Enabled(s, e)
  {
    match e
    case Other(f) => s.(sched := Scheduler.Step(s.sched, f))
    case AskFor(lba) => Ask(s, lba)
    case Interrupt => Complete(s)
    case TakeHead => Take(s)
    case CopyData => Copy(s)
    case IssueNext => Issue(s)
  }

  ghost predicate EnabledRun(s: State, events: seq<Event>)
    decreases |events|
  {
    events == [] || (Enabled(s, events[0]) && EnabledRun(Step(s, events[0]), events[1..]))
  }

  ghost function Run(s: State, events: seq<Event>): State
    requires EnabledRun(s, events)
    decreases |events|
  {
    if events == [] then s else Run(Step(s, events[0]), events[1..])
  }

  const BOOTED: State := State(BOOT, Idle, [], map[], [], [], [], false)

  // ------------------------------------------------------------------
  // The invariant
  // ------------------------------------------------------------------

  ghost predicate OwnedBy(requests: seq<Request>, pids: seq<Pid>) {
    |requests| == |pids| && forall i :: 0 <= i < |pids| ==> requests[i].owner == pids[i]
  }

  /** Woken and not asleep again: ready, or running past its yield. */
  predicate Resumable(s: Sched, p: Pid) {
    p in s.ready || (p == s.curr && !s.yielding)
  }

  /** The request queue, the wait queue and the device are in lockstep. */
  ghost predicate Lockstep(s: State) {
    var blocked, pc := Waiting(s.sched, ATA), PcOf(s, s.sched.curr);
    match s.dev
    case Idle =>
      OwnedBy(s.requests, blocked) && !pc.Taken? && (pc.Copied? || s.requests == [])
    case Busy(lba) =>
      OwnedBy(s.requests, blocked) && !pc.Taken? && !pc.Copied? && s.requests != [] && s.requests[0].lba == lba
    case Data(lba) =>
      if pc.Taken? then OwnedBy(s.requests, blocked) && pc == Taken(lba, Request(s.sched.curr, lba))
      else
        && !pc.Copied? && s.requests != [] && s.requests[0].lba == lba
        && OwnedBy(s.requests[1..], blocked) && Resumable(s.sched, s.requests[0].owner)
  }

  /** Who is in `ata_read_block`, and for which block. */
  ghost predicate Readers(s: State) {
    && PcOf(s, MAIN) == Out
    && (forall p :: PcOf(s, p).Taken? || PcOf(s, p).Copied? ==> p == s.sched.curr && !s.sched.yielding)
    && (forall i :: 0 <= i < |s.requests| ==> PcOf(s, s.requests[i].owner) == Asked(s.requests[i].lba))
    && (forall i, j :: 0 <= i < j < |s.requests| ==> s.requests[i].owner != s.requests[j].owner)
    && (forall p :: PcOf(s, p).Asked? ==> exists i :: 0 <= i < |s.requests| && s.requests[i].owner == p)
  }

  /** Reads are served in order of arrival and every read got the block it asked for. */
  ghost predicate History(s: State) {
    var pc := PcOf(s, s.sched.curr);
    && s.arrivals == s.served + (if pc.Taken? then [pc.head] else []) + s.requests
    && |s.got| == |s.served| && (forall i :: 0 <= i < |s.got| ==> s.got[i] == s.served[i].lba)
    && !s.failed
  }

  ghost predicate Inv(s: State) {
    Scheduler.Inv(s.sched) && Lockstep(s) && Readers(s) && History(s)
  }

  lemma {:induction false} InvSched(s: State)
    requires Inv(s)
    ensures Scheduler.Inv(s.sched)
  {
  }

  // ------------------------------------------------------------------
  // Each step keeps it
  // ------------------------------------------------------------------

  /** Only the running process's position in `ata_read_block` changes. */
  ghost predicate PcMoved(s: State, s': State, pc: Pc) {
    forall p :: PcOf(s', p) == if p == s.sched.curr then pc else PcOf(s, p)
  }

  lemma {:induction false} AskReaders(s: State, lba: Lba)
    requires Readers(s) && Enabled(s, AskFor(lba))
    ensures Readers(Ask(s, lba))
  {
    var s', p := Ask(s, lba), s.sched.curr;
    assert PcMoved(s, s', Asked(lba));
    assert forall i :: 0 <= i < |s.requests| ==> s'.requests[i] == s.requests[i] && s.requests[i].owner != p;
    assert s'.requests[|s.requests|] == Request(p, lba);
    forall o | PcOf(s', o).Asked?
      ensures exists i :: 0 <= i < |s'.requests| && s'.requests[i].owner == o
    {
      if o != p {
        var i :| 0 <= i < |s.requests| && s.requests[i].owner == o;
        assert s'.requests[i].owner == o;
      }
    }
  }

  lemma {:induction false} AskLockstep(s: State, lba: Lba)
    requires Inv(s) && Enabled(s, AskFor(lba))
    ensures Lockstep(Ask(s, lba)) && History(Ask(s, lba))
  {
    hide Scheduler.Inv, Readers;
    var s', p := Ask(s, lba), s.sched.curr;
    assert Waiting(s'.sched, ATA) == Waiting(s.sched, ATA) + [p];
    assert s.requests != [] ==> s'.requests[1..] == s.requests[1..] + [Request(p, lba)];
    if s.dev.Data? {
      assert Resumable(s.sched, s.requests[0].owner);
      HeadIsNotRunning(s);
    }
    assert s.served + [] + s.requests + [Request(p, lba)] == s'.served + [] + s'.requests;
  }

  lemma {:induction false} HeadIsNotRunning(s: State)
    requires Readers(s) && s.requests != [] && PcOf(s, s.sched.curr) == Out
    ensures s.requests[0].owner != s.sched.curr
  {
    assert PcOf(s, s.requests[0].owner).Asked?;
  }

  lemma {:induction false} CompleteInv(s: State)
    requires Inv(s) && Enabled(s, Interrupt)
    ensures Lockstep(Complete(s)) && Readers(Complete(s)) && History(Complete(s))
  {
    hide Scheduler.Inv;
    var s' := Complete(s);
    assert forall p :: PcOf(s', p) == PcOf(s, p);
    assert Waiting(s'.sched, ATA) == Waiting(s.sched, ATA)[1..];
  }

  lemma {:induction false} OwnerIsBlocked(requests: seq<Request>, pids: seq<Pid>, i: nat)
    requires OwnedBy(requests, pids) && i < |requests|
    ensures requests[i].owner in pids
  {
  }

  lemma {:induction false} OnlyHeadUnblocked(requests: seq<Request>, pids: seq<Pid>, i: nat)
    requires i < |requests| && OwnedBy(requests[1..], pids) && requests[i].owner !in pids
    ensures i == 0
  {
  }

  /** A reader that runs again after its yield owns the head request, and the device holds its block. */
  lemma {:induction false} ResumedOwnsHead(s: State)
    requires Inv(s) && Enabled(s, TakeHead)
    ensures s.dev.Data? && s.requests != []
    ensures s.requests[0] == Request(s.sched.curr, s.dev.lba) && PcOf(s, s.sched.curr) == Asked(s.dev.lba)
  {
    hide Scheduler.Inv;
    var p := s.sched.curr;
    RunningNotWaiting(s.sched, ATA);
    var i :| 0 <= i < |s.requests| && s.requests[i].owner == p;
    if s.dev.Data? {
      OnlyHeadUnblocked(s.requests, Waiting(s.sched, ATA), i);
    } else {
      OwnerIsBlocked(s.requests, Waiting(s.sched, ATA), i);
    }
  }

  lemma {:induction false} TakeInv(s: State)
    requires Inv(s) && Enabled(s, TakeHead)
    ensures Lockstep(Take(s)) && Readers(Take(s)) && History(Take(s))
  {
    hide Scheduler.Inv;
    ResumedOwnsHead(s);
    var s', p := Take(s), s.sched.curr;
    assert PcMoved(s, s', Taken(s.dev.lba, s.requests[0]));
    assert s.requests == [s.requests[0]] + s.requests[1..];
    forall o | PcOf(s', o).Asked?
      ensures exists i :: 0 <= i < |s'.requests| && s'.requests[i].owner == o
    {
      var i :| 0 <= i < |s.requests| && s.requests[i].owner == o;
      assert s'.requests[i - 1].owner == o;
    }
    assert s.served + [] + s.requests == s'.served + [s.requests[0]] + s'.requests;
  }

  lemma {:induction false} CopyInv(s: State)
    requires Inv(s) && Enabled(s, CopyData)
    ensures Lockstep(Copy(s)) && Readers(Copy(s)) && History(Copy(s))
  {
    hide Scheduler.Inv;
    var s', p := Copy(s), s.sched.curr;
    assert PcMoved(s, s', Copied);
    assert forall i :: 0 <= i < |s.requests| ==> s.requests[i].owner != p;
    assert s.served + [Request(p, s.dev.lba)] + s.requests == s'.served + [] + s'.requests;
  }

  lemma {:induction false} IssueInv(s: State)
    requires Inv(s) && Enabled(s, IssueNext)
    ensures Lockstep(Issue(s)) && Readers(Issue(s)) && History(Issue(s))
  {
    hide Scheduler.Inv;
    var s', p := Issue(s), s.sched.curr;
    assert PcMoved(s, s', Out);
    assert forall i :: 0 <= i < |s.requests| ==> s.requests[i].owner != p;
  }

  /** A process that is ready stays ready or is dispatched. */
  lemma {:induction false} ReadyStaysResumable(s: Sched, e: Scheduler.Event, p: Pid)
    requires p in s.ready
    ensures Resumable(Scheduler.Step(s, e), p)
  {
    var k :| 0 <= k < |s.ready| && s.ready[k] == p;
    ReadyAdvances(s, e, k);
    if e.YieldTrap? || e.ExitProcess? {
      assert !Scheduler.Step(s, e).yielding;
    }
  }

  /** A woken reader is not lost by whatever else happens before it runs. */
  lemma {:induction false} ForeignResumable(s: State, e: Scheduler.Event, p: Pid)
    requires Enabled(s, Other(e)) && PcOf(s, p) != Out && p != MAIN && Resumable(s.sched, p)
    ensures Resumable(Scheduler.Step(s.sched, e), p)
  {
    if p in s.sched.ready {
      ReadyStaysResumable(s.sched, e, p);
    }
  }

  /** What a foreign step leaves alone. */
  lemma {:induction false} ForeignKeeps(s: State, e: Scheduler.Event)
    requires Enabled(s, Other(e))
    ensures var t := Scheduler.Step(s.sched, e);
            && Waiting(t, ATA) == Waiting(s.sched, ATA)
            && (t.curr == s.sched.curr || s.sched.yielding || PcOf(s, s.sched.curr) == Out)
            && (PcOf(s, s.sched.curr) != Out && !s.sched.yielding && s.sched.curr != MAIN ==>
                  t.curr == s.sched.curr && !t.yielding)
  {
  }

  lemma {:induction false} OtherInv(s: State, e: Scheduler.Event)
    requires Inv(s) && Enabled(s, Other(e))
    ensures Lockstep(Step(s, Other(e))) && Readers(Step(s, Other(e))) && History(Step(s, Other(e)))
  {
    hide Scheduler.Inv, Scheduler.Step, Scheduler.Enabled, Foreign, Resumable;
    var s' := Step(s, Other(e));
    ForeignKeeps(s, e);
    assert forall p :: PcOf(s', p) == PcOf(s, p);
    var pc, pc' := PcOf(s, s.sched.curr), PcOf(s, s'.sched.curr);
    if s.dev.Data? && !pc.Taken? {
      assert PcOf(s, s.requests[0].owner).Asked?;
      ForeignResumable(s, e, s.requests[0].owner);
    }
  }

  lemma {:induction false} StepInv(s: State, e: Event)
    requires Inv(s) && Enabled(s, e)
    ensures Inv(Step(s, e))
  {
    hide Lockstep, Readers, History, Scheduler.Inv, Scheduler.Step, Foreign;
    match e
    case Other(f) => OtherInv(s, f); Scheduler.StepInv(s.sched, f);
    case AskFor(lba) => AskReaders(s, lba); AskLockstep(s, lba); BlockInv(s.sched, ATA);
    case Interrupt => CompleteInv(s); WakeHeadInv(s.sched, ATA);
    case TakeHead => TakeInv(s);
    case CopyData => CopyInv(s);
    case IssueNext => IssueInv(s);
  }

  lemma {:induction false} RunInv(s: State, events: seq<Event>)
    requires Inv(s) && EnabledRun(s, events)
    ensures Inv(Run(s, events))
    decreases |events|
  {
    hide Inv, Step, Enabled;
    if events != [] {
      StepInv(s, events[0]);
      RunInv(Step(s, events[0]), events[1..]);
    }
  }

  // ------------------------------------------------------------------
  // What every run guarantees
  // ------------------------------------------------------------------

  lemma {:induction false} BootInv()
    ensures Inv(BOOTED)
  {
    assert forall q :: Waiting(BOOT, q) == [];
  }

  /** The calls of `ata_read_block` in a run: who made them and the block number passed, from the events alone. */
  ghost function Calls(s: State, events: seq<Event>): seq<Request>
    requires EnabledRun(s, events)
    decreases |events|
  {
    if events == [] then []
    else (if events[0].AskFor? then [Request(s.sched.curr, events[0].lba)] else []) + Calls(Step(s, events[0]), events[1..])
  }

  /** The reads that completed in a run: who copied a block, from the events alone. */
  ghost function Copies(s: State, events: seq<Event>): seq<Pid>
    requires EnabledRun(s, events)
    decreases |events|
  {
    if events == [] then []
    else (if events[0].CopyData? then [s.sched.curr] else []) + Copies(Step(s, events[0]), events[1..])
  }

  /** Requests are queued for exactly the calls made, and reads are served by exactly the processes that copied a block. */
  lemma {:induction false} RunRecords(s: State, events: seq<Event>)
    requires EnabledRun(s, events)
    ensures Run(s, events).arrivals == s.arrivals + Calls(s, events)
    ensures |Run(s, events).served| == |s.served| + |Copies(s, events)|
    ensures forall i :: 0 <= i < |Copies(s, events)| ==> Run(s, events).served[|s.served| + i].owner == Copies(s, events)[i]
    ensures s.served <= Run(s, events).served
    decreases |events|
  {
    hide Step, Enabled;
    if events != [] {
      var e, s1 := events[0], Step(s, events[0]);
      StepRecords(s, e);
      RunRecords(s1, events[1..]);
      var now := if e.AskFor? then [Request(s.sched.curr, e.lba)] else [];
      assert s.arrivals + now + Calls(s1, events[1..]) == s.arrivals + (now + Calls(s1, events[1..]));
    }
  }

  lemma {:induction false} StepRecords(s: State, e: Event)
    requires Enabled(s, e)
    ensures Step(s, e).arrivals == s.arrivals + if e.AskFor? then [Request(s.sched.curr, e.lba)] else []
    ensures s.served <= Step(s, e).served && |Step(s, e).served| == |s.served| + if e.CopyData? then 1 else 0
    ensures e.CopyData? ==> Step(s, e).served[|s.served|].owner == s.sched.curr
  {
  }

  /**
    Over every run: the i-th read that completes is the i-th call of `ata_read_block`, completed by the process that made
    it, and got the block whose number that call passed; none fails.
   */
  lemma {:induction false} EveryReadGetsItsBlock(events: seq<Event>)
    requires EnabledRun(BOOTED, events)
    ensures var s, calls, copies := Run(BOOTED, events), Calls(BOOTED, events), Copies(BOOTED, events);
            && |s.got| == |copies| <= |calls|
            && (forall i :: 0 <= i < |copies| ==> copies[i] == calls[i].owner && s.got[i] == calls[i].lba)
            && s.served <= s.arrivals && s.arrivals == calls
            && !s.failed
  {
    hide EnabledRun, Run, Calls, Copies, Scheduler.Inv, Lockstep, Readers;
    BootInv();
    RunInv(BOOTED, events);
    RunRecords(BOOTED, events);
    var s := Run(BOOTED, events);
    assert s.arrivals == Calls(BOOTED, events);
    assert forall i :: 0 <= i < |s.served| ==> s.served[i] == s.arrivals[i];
  }

  /** The running process has removed its request and not yet issued the next command. */
  predicate Finishing(s: State) {
    PcOf(s, s.sched.curr).Taken? || PcOf(s, s.sched.curr).Copied?
  }

  /** While a reader is finishing, the owner of the head request is asleep. */
  lemma {:induction false} HeadAsleepWhileFinishing(s: State)
    requires Inv(s) && Finishing(s) && s.requests != []
    ensures !s.dev.Busy? && !Resumable(s.sched, s.requests[0].owner)
  {
    assert OwnedBy(s.requests, Waiting(s.sched, ATA));
    assert s.requests[0].owner in Waiting(s.sched, ATA);
    assert PcOf(s, s.requests[0].owner).Asked?;
  }

  /**
    The queue never stalls: while requests wait, a command is in flight or the head request's owner is
    ready or running, except exactly while the running process is about to issue the next command.
    With no request left the device is idle, or the running process is about to empty it.
   */
  lemma {:induction false} NeverStalls(events: seq<Event>)
    requires EnabledRun(BOOTED, events)
    ensures var s := Run(BOOTED, events);
            && (s.requests != [] ==> (s.dev.Busy? || Resumable(s.sched, s.requests[0].owner) <==> !Finishing(s)))
            && (s.requests == [] ==> s.dev == Idle || PcOf(s, s.sched.curr).Taken?)
            && (Finishing(s) ==> s.sched.curr != MAIN && !s.sched.yielding)
            && (s.dev.Busy? ==> s.requests != [] && s.requests[0].lba == s.dev.lba)
            && (s.dev.Busy? ==> OwnedBy(s.requests, Waiting(s.sched, ATA)))
  {
    hide EnabledRun, Run, Scheduler.Inv;
    BootInv();
    RunInv(BOOTED, events);
    var s := Run(BOOTED, events);
    if Finishing(s) && s.requests != [] {
      HeadAsleepWhileFinishing(s);
    }
  }

  lemma {:induction false} RunFirst(s: State, e: Event, rest: seq<Event>)
    requires Enabled(s, e) && EnabledRun(Step(s, e), rest)
    ensures EnabledRun(s, [e] + rest) && Run(s, [e] + rest) == Run(Step(s, e), rest)
  {
    assert ([e] + rest)[1..] == rest;
  }

  lemma {:induction false} RunAppend(s: State, a: seq<Event>, b: seq<Event>)
    requires EnabledRun(s, a) && EnabledRun(Run(s, a), b)
    ensures EnabledRun(s, a + b) && Run(s, a + b) == Run(Run(s, a), b)
    decreases |a|
  {
    hide Enabled, Step;
    if a == [] {
      assert [] + b == b;
    } else {
      assert (a + b)[1..] == a[1..] + b && (a + b)[0] == a[0];
      RunAppend(Step(s, a[0]), a[1..], b);
    }
  }

  /** Two processes exist and process 1 runs. */
  const TWO: State := BOOTED.(sched := Sched(1, false, [2], map[], {1, 2}, false, {MAIN}, true))

  lemma {:induction false} TwoStart()
    ensures var events := [Other(CreateProcess(1)), Other(CreateProcess(2)), Other(RunMain), Other(YieldTrap)];
            EnabledRun(BOOTED, events) && Run(BOOTED, events) == TWO
  {
    var e1, e2, e3, e4 := Other(CreateProcess(1)), Other(CreateProcess(2)), Other(RunMain), Other(YieldTrap);
    var s1 := BOOTED.(sched := Sched(MAIN, false, [1], map[], {1}, false, {MAIN}, false));
    var s2 := BOOTED.(sched := Sched(MAIN, false, [1, 2], map[], {1, 2}, false, {MAIN}, false));
    var s3 := BOOTED.(sched := Sched(MAIN, true, [1, 2], map[], {1, 2}, true, {MAIN}, false));
    assert Step(BOOTED, e1) == s1 && Step(s1, e2) == s2 && Step(s2, e3) == s3 && Step(s3, e4) == TWO;
    RunFirst(s3, e4, []);
    RunFirst(s2, e3, [e4]);
    RunFirst(s1, e2, [e3, e4]);
    RunFirst(BOOTED, e1, [e2, e3, e4]);
  }

  /** Both have asked; process 2 is about to yield. */
  const ASKED: State :=
    State(Sched(2, true, [], map[ATA := [1, 2]], {1, 2}, true, {MAIN, 1, 2}, false), Busy(10), [Request(1, 10), Request(2, 20)],
          map[1 := Asked(10), 2 := Asked(20)], [Request(1, 10), Request(2, 20)], [], [], false)

  lemma {:induction false} BothAsk()
    ensures var events := [AskFor(10), Other(YieldTrap), AskFor(20)];
            EnabledRun(TWO, events) && Run(TWO, events) == ASKED
  {
    var s1 := State(Sched(1, true, [2], map[ATA := [1]], {1, 2}, true, {MAIN, 1}, false), Busy(10), [Request(1, 10)],
                    map[1 := Asked(10)], [Request(1, 10)], [], [], false);
    var s2 := s1.(sched := Sched(2, false, [], map[ATA := [1]], {1, 2}, false, {MAIN, 1}, true));
    assert Waiting(TWO.sched, ATA) + [1] == [1] && Waiting(s2.sched, ATA) + [2] == [1, 2];
    assert Ask(TWO, 10).sched.waits == s1.sched.waits && Ask(TWO, 10).pc == s1.pc;
    assert Step(TWO, AskFor(10)) == s1;
    assert Step(s1, Other(YieldTrap)) == s2;
    assert Ask(s2, 20).sched.waits == ASKED.sched.waits && Ask(s2, 20).pc == ASKED.pc;
    assert Step(s2, AskFor(20)) == ASKED;
    RunFirst(s2, AskFor(20), []);
    RunFirst(s1, Other(YieldTrap), [AskFor(20)]);
    RunFirst(TWO, AskFor(10), [Other(YieldTrap), AskFor(20)]);
  }

  lemma {:induction false} FirstTakes()
    ensures var events := [Interrupt, Other(YieldTrap), TakeHead];
            EnabledRun(ASKED, events) &&
            var s := Run(ASKED, events);
            s.requests == [Request(2, 20)] && s.dev == Data(10) && s.sched == Sched(1, false, [], map[ATA := [2]], {1, 2}, false, {MAIN, 1, 2}, true)
  {
    var s1 := ASKED.(dev := Data(10), sched := Sched(2, true, [1], map[ATA := [2]], {1, 2}, true, {MAIN, 1, 2}, false));
    var s2 := s1.(sched := Sched(1, false, [], map[ATA := [2]], {1, 2}, false, {MAIN, 1, 2}, true));
    assert Step(ASKED, Interrupt) == s1;
    assert Step(s1, Other(YieldTrap)) == s2;
    RunFirst(s2, TakeHead, []);
    RunFirst(s1, Other(YieldTrap), [TakeHead]);
    RunFirst(ASKED, Interrupt, [Other(YieldTrap), TakeHead]);
  }

  /**
    A run that gets there: processes 1 and 2 ask for blocks 10 and 20, the first command completes, and process 1
    removes its request. Request 20 then waits with no command in flight and its owner asleep.
   */
  lemma {:induction false} StallHappens()
    ensures var events := [Other(CreateProcess(1)), Other(CreateProcess(2)), Other(RunMain), Other(YieldTrap)]
                          + [AskFor(10), Other(YieldTrap), AskFor(20)] + [Interrupt, Other(YieldTrap), TakeHead];
            EnabledRun(BOOTED, events) &&
            var s := Run(BOOTED, events);
            s.requests == [Request(2, 20)] && !s.dev.Busy? && !Resumable(s.sched, s.requests[0].owner)
  {
    hide EnabledRun, Run, Step, Enabled;
    var a := [Other(CreateProcess(1)), Other(CreateProcess(2)), Other(RunMain), Other(YieldTrap)];
    var b, c := [AskFor(10), Other(YieldTrap), AskFor(20)], [Interrupt, Other(YieldTrap), TakeHead];
    TwoStart();
    BothAsk();
    FirstTakes();
    RunAppend(BOOTED, a, b);
    RunAppend(BOOTED, a + b, c);
  }

  /** With a second reader waiting, a reader past its `LL_dequeue` is in that window. */
  lemma {:induction false} TakeOpensWindow(s: State)
    requires Inv(s) && Enabled(s, TakeHead) && 2 <= |s.requests|
    ensures var s' := Take(s);
            s'.requests != [] && !s'.dev.Busy? && !Resumable(s'.sched, s'.requests[0].owner)
  {
    hide Lockstep, Readers, History, Scheduler.Inv;
    ResumedOwnsHead(s);
    TakeInv(s);
    HeadAsleepWhileFinishing(Take(s));
  }

  // ------------------------------------------------------------------
  // Bounded service
  // ------------------------------------------------------------------

  /** The completion interrupts so far: one for every read served, and one more while its data is in the device. */
  function Completions(s: State): nat {
    |s.served| + if s.dev.Data? then 1 else 0
  }

  function Interrupts(events: seq<Event>): nat
    decreases |events|
  {
    if events == [] then 0 else (if events[0].Interrupt? then 1 else 0) + Interrupts(events[1..])
  }

  lemma {:induction false} StepCompletions(s: State, e: Event)
    requires Inv(s) && Enabled(s, e)
    ensures Completions(Step(s, e)) == Completions(s) + if e.Interrupt? then 1 else 0
    ensures s.arrivals <= Step(s, e).arrivals && s.served <= Step(s, e).served
  {
    hide Scheduler.Inv, Scheduler.Step, Scheduler.Enabled, Foreign, Readers, History, Resumable;
    if e.TakeHead? {
      ResumedOwnsHead(s);
    }
  }

  lemma {:induction false} RunCompletions(s: State, events: seq<Event>)
    requires Inv(s) && EnabledRun(s, events)
    ensures Completions(Run(s, events)) == Completions(s) + Interrupts(events)
    ensures s.arrivals <= Run(s, events).arrivals && s.served <= Run(s, events).served
    decreases |events|
  {
    hide Inv, Step, Enabled, Completions;
    if events != [] {
      StepCompletions(s, events[0]);
      StepInv(s, events[0]);
      RunCompletions(Step(s, events[0]), events[1..]);
    }
  }

  /** The place in the order of arrival of the request with `k` others before it in the queue. */
  function Arrival(s: State, k: nat): nat {
    |s.served| + (if PcOf(s, s.sched.curr).Taken? then 1 else 0) + k
  }

  /** The data of the `n`-th read is in the device and its process has been woken: it is ready, or runs and has taken its request. */
  ghost predicate InService(s: State, n: nat)
    requires n < |s.arrivals|
  {
    var r := s.arrivals[n];
    && |s.served| == n && s.dev == Data(r.lba)
    && ((PcOf(s, s.sched.curr) == Taken(r.lba, r) && s.sched.curr == r.owner)
        || (s.requests != [] && s.requests[0] == r && PcOf(s, r.owner) == Asked(r.lba) && Resumable(s.sched, r.owner)))
  }

  lemma {:induction false} ArrivalIsRequest(s: State, k: nat)
    requires History(s) && k < |s.requests|
    ensures Arrival(s, k) < |s.arrivals| && s.arrivals[Arrival(s, k)] == s.requests[k]
  {
  }

  /** When as many completions as reads up to the `n`-th have come, that read is served or in service. */
  lemma {:induction false} CompletedIsInService(s: State, n: nat)
    requires Inv(s) && n < |s.arrivals| && n < Completions(s)
    ensures n < |s.served| || InService(s, n)
  {
    hide Scheduler.Inv;
    if |s.served| == n {
      var pc := PcOf(s, s.sched.curr);
      assert s.arrivals[n] == if pc.Taken? then pc.head else s.requests[0];
    }
  }

  /**
    Bounded service: a read with `k` requests before it in the queue is served, or its data is in the device and its
    process woken, as soon as `k + 1` completion interrupts have come, one fewer if the data of the first is already
    there. What else happens does not matter; and once served it was served with its own block.
   */
  lemma {:induction false} BoundedService(s: State, events: seq<Event>, k: nat)
    requires Inv(s) && EnabledRun(s, events) && k < |s.requests|
    requires k + 1 <= Interrupts(events) + if s.dev.Data? && !PcOf(s, s.sched.curr).Taken? then 1 else 0
    ensures var s', n := Run(s, events), Arrival(s, k);
            && n < |s'.arrivals| && s'.arrivals[n] == s.requests[k]
            && (n < |s'.served| || InService(s', n))
            && (n < |s'.served| ==> s'.served[n] == s.requests[k] && n < |s'.got| && s'.got[n] == s.requests[k].lba)
  {
    hide EnabledRun, Run, Scheduler.Inv, Readers, InService, Resumable;
    var s', n := Run(s, events), Arrival(s, k);
    ArrivalIsRequest(s, k);
    RunCompletions(s, events);
    RunInv(s, events);
    TakenHasData(s);
    CompletedIsInService(s', n);
  }

  lemma {:induction false} TakenHasData(s: State)
    requires Lockstep(s)
    ensures PcOf(s, s.sched.curr).Taken? ==> s.dev.Data?
  {
  }

  /** What a run of the protocol is to the scheduler. */
  function SchedEvents(events: seq<Event>): seq<Scheduler.Event>
    decreases |events|
  {
    if events == [] then [] else SchedEvent(events[0]) + SchedEvents(events[1..])
  }

  function SchedEvent(e: Event): seq<Scheduler.Event> {
    match e
    case Other(f) => [f]
    case AskFor(_) => [BlockOn(ATA)]
    case Interrupt => [UnblockHead(ATA)]
    case TakeHead => []
    case CopyData => []
    case IssueNext => []
  }

  /** To the scheduler a run of the protocol is one of its own, so all that holds of those holds here. */
  lemma {:induction false} Projects(s: State, events: seq<Event>)
    requires EnabledRun(s, events)
    ensures Scheduler.EnabledRun(s.sched, SchedEvents(events))
    ensures Run(s, events).sched == Scheduler.Run(s.sched, SchedEvents(events))
    decreases |events|
  {
    if events != [] {
      var e, rest := events[0], SchedEvents(events[1..]);
      Projects(Step(s, e), events[1..]);
      match e
      case Other(f) => RunCons(s.sched, f, rest);
      case AskFor(_) => RunCons(s.sched, BlockOn(ATA), rest);
      case Interrupt => RunCons(s.sched, UnblockHead(ATA), rest);
      case TakeHead => assert [] + rest == rest;
      case CopyData => assert [] + rest == rest;
      case IssueNext => assert [] + rest == rest;
    }
  }

  lemma {:induction false} DispatchedRuns(s: Sched, events: seq<Scheduler.Event>)
    requires events != [] && Reschedules(events[|events| - 1])
    ensures !Scheduler.Run(s, events).yielding
    decreases |events|
  {
    if |events| == 1 {
      assert Scheduler.Run(s, events) == Scheduler.Run(Scheduler.Step(s, events[0]), []);
    } else {
      DispatchedRuns(Scheduler.Step(s, events[0]), events[1..]);
    }
  }

  /**
    And from there it takes exactly as many reschedulings as the woken process has processes before it in the ready
    queue, and one: then it runs and can take its request, or copy its block, unless it has been served.
   */
  lemma {:induction false} WokenIsDispatched(s: State, events: seq<Event>, n: nat, p: nat)
    requires Inv(s) && EnabledRun(s, events) && n < |s.arrivals| && InService(s, n)
    requires p < |s.sched.ready| && s.sched.ready[p] == s.arrivals[n].owner && s.arrivals[n].owner != MAIN
    requires var es := SchedEvents(events); es != [] && Count(es) == p + 1 && Reschedules(es[|es| - 1])
    ensures var s' := Run(s, events);
            && s'.sched.curr == s.arrivals[n].owner
            && (n < |s'.served| || Enabled(s', TakeHead) || Enabled(s', CopyData))
  {
    hide EnabledRun, Run, Scheduler.Run, Scheduler.Inv, SchedEvents, Count, Resumable;
    var s' := Run(s, events);
    Projects(s, events);
    BoundedWaiting(s.sched, SchedEvents(events), p);
    DispatchedRuns(s.sched, SchedEvents(events));
    RunCompletions(s, events);
    RunInv(s, events);
    CompletedIsInService(s', n);
  }
}
