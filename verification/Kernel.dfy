/**
  src/proc.c and the interrupt counter of src/arch/x86_64/interrupts.c, statement by
  statement. Each method is proved to make the step of module Scheduler it stands for.
 */
module Kernel {
  import opened Scheduler

  datatype Ref = Null | Proc(pid: Pid)

  class Kernel {
    var currProc: Ref
    var nextProc: Ref
    var sleepCurr: bool
    var readyQueue: seq<Pid>
    var waitQueues: map<Qid, seq<Pid>>
    var irqSemaphore: int
    var interruptFlag: bool          // the processor's IF, as set by STI and CLI and loaded with a context
    var savedFlags: set<Pid>         // processes whose saved rflags have IF set
    var inTail: bool                 // the handler of the last trap has not returned
    var returnFlag: bool             // IF in the flags its return will load
    ghost var live: set<Pid>
    ghost var yielding: bool
    ghost var unmasked: set<Pid>

    /** No critical section, no switch pending; flag and saved flags are those of the transition system. */
    ghost predicate AtRest()
      reads this
    {
      && irqSemaphore == 0 && currProc.Proc? && currProc == nextProc
      && (interruptFlag <==> inTail || currProc.pid in unmasked)
      && (inTail ==> (returnFlag <==> currProc.pid in unmasked))
      && (forall p :: p != currProc.pid ==> (p in savedFlags <==> p in unmasked))
    }

    /** A point where a hardware interrupt can arrive. */
    ghost predicate Interruptible()
      reads this
    {
      AtRest() && interruptFlag
    }

    ghost function State(): Sched
      requires currProc.Proc?
      reads this
    {
      Sched(currProc.pid, sleepCurr, readyQueue, waitQueues, live, yielding, unmasked, inTail)
    }

    constructor ()
      ensures Interruptible() && State() == BOOT
    {
      currProc, nextProc := Proc(MAIN), Proc(MAIN);
      sleepCurr, readyQueue, waitQueues := false, [], map[];
      irqSemaphore, interruptFlag, savedFlags := 0, true, {};
      inTail, returnFlag := false, true;
      live, yielding, unmasked := {}, false, {MAIN};
    }

    /** `IRQ_enable`: only leaving the outermost section turns interrupts on. */
    method IrqEnable()
      modifies `irqSemaphore, `interruptFlag
      ensures irqSemaphore == if old(irqSemaphore) == 0 then 0 else old(irqSemaphore) - 1
      ensures interruptFlag == (old(interruptFlag) || old(irqSemaphore) == 1)
    {
      if irqSemaphore == 0 {
        return;
      }
      irqSemaphore := irqSemaphore - 1;
      if irqSemaphore == 0 {
        interruptFlag := true;
      }
    }

    /** `IRQ_disable`: entering the outermost section turns interrupts off. */
    method IrqDisable()
      modifies `irqSemaphore, `interruptFlag
      ensures irqSemaphore == old(irqSemaphore) + 1
      ensures interruptFlag == (old(interruptFlag) && old(irqSemaphore) != 0)
    {
      if irqSemaphore == 0 {
        interruptFlag := false;
      }
      irqSemaphore := irqSemaphore + 1;
    }

    /** `iretq` at the end of the trap: the running process goes on with its own flags. */
    method Return()
      requires AtRest()
      modifies `interruptFlag, `inTail
      ensures AtRest() && !inTail && State() == old(State()).(tail := false)
    {
      if inTail {
        interruptFlag, inTail := returnFlag, false;
      }
    }

    /** The running process is in its outermost critical section. */
    ghost predicate InSection()
      reads this
    {
      && irqSemaphore == 1 && !interruptFlag && !inTail && currProc.Proc? && currProc == nextProc
      && (forall p :: p != currProc.pid ==> (p in savedFlags <==> p in unmasked))
    }

    method EnterSection()
      requires AtRest()
      modifies `irqSemaphore, `interruptFlag, `inTail
      ensures InSection() && State() == old(State()).(tail := false)
    {
      Return();
      IrqDisable();
    }

    method LeaveSection()
      requires InSection()
      modifies `irqSemaphore, `interruptFlag, `unmasked
      ensures AtRest() && State() == Unmask(old(State()))
    {
      IrqEnable();
      unmasked := unmasked + {currProc.pid};
    }

    /** `PROC_block_on(queue, 1)` at the end of a critical section, as the drivers call it. */
    method BlockAndLeave(q: Qid)
      requires InSection()
      modifies `sleepCurr, `waitQueues, `irqSemaphore, `interruptFlag, `yielding, `unmasked
      ensures AtRest() && State() == Block(old(State()), q)
    {
      BlockOn(q, true);
    }

    method QueueEnqueue(q: Qid, p: Pid)
      modifies `waitQueues
      ensures waitQueues == old(waitQueues)[q := (if q in old(waitQueues) then old(waitQueues)[q] else []) + [p]]
    {
      waitQueues := waitQueues[q := (if q in waitQueues then waitQueues[q] else []) + [p]];
    }

    /** `PROC_block_on` up to its yield, at any depth; the flag is set when that leaves the outermost section. */
    method BlockOn(q: Qid, enableInts: bool)
      requires currProc.Proc? && !inTail
      modifies `sleepCurr, `waitQueues, `irqSemaphore, `interruptFlag, `yielding, `unmasked
      ensures var s := Block(old(State()), q);
              State() == if enableInts && old(irqSemaphore) == 1 then s else s.(unmasked := old(unmasked))
      ensures irqSemaphore == if enableInts && old(irqSemaphore) != 0 then old(irqSemaphore) - 1 else old(irqSemaphore)
      ensures interruptFlag == (old(interruptFlag) || (enableInts && old(irqSemaphore) == 1))
    {
      QueueEnqueue(q, currProc.pid);
      sleepCurr := true;
      if enableInts {
        if irqSemaphore == 1 {
          unmasked := unmasked + {currProc.pid};
        }
        IrqEnable();
      }
      yielding := true;
    }

    /** `PROC_unblock_head`, at any depth. */
    method UnblockHead(q: Qid)
      requires currProc.Proc? && 0 <= irqSemaphore && (irqSemaphore == 0 <==> interruptFlag)
      modifies `readyQueue, `waitQueues, `irqSemaphore, `interruptFlag
      ensures State() == WakeHead(old(State()), q)
      ensures irqSemaphore == old(irqSemaphore) && interruptFlag == old(interruptFlag)
    {
      if q !in waitQueues || waitQueues[q] == [] {
        return;
      }
      IrqDisable();
      var proc := waitQueues[q][0];
      waitQueues := waitQueues[q := waitQueues[q][1..]];
      readyQueue := readyQueue + [proc];
      IrqEnable();
    }

    /** `PROC_unblock_all`, at any depth: the loop empties the wait queue into the ready queue in order. */
    method UnblockAll(q: Qid)
      requires currProc.Proc? && 0 <= irqSemaphore && (irqSemaphore == 0 <==> interruptFlag)
      modifies `readyQueue, `waitQueues, `irqSemaphore, `interruptFlag
      ensures State() == WakeAll(old(State()), q)
      ensures irqSemaphore == old(irqSemaphore) && interruptFlag == old(interruptFlag)
    {
      ghost var s := State();
      IrqDisable();
      if q !in waitQueues {
        waitQueues := waitQueues[q := []];
      }
      ghost var n := 0;
      while waitQueues[q] != []
        invariant q in waitQueues && n <= |Waiting(s, q)|
        invariant waitQueues == s.waits[q := Waiting(s, q)[n..]]
        invariant readyQueue == s.ready + Waiting(s, q)[..n]
        invariant irqSemaphore == old(irqSemaphore) + 1 && !interruptFlag
        decreases |waitQueues[q]|
      {
        var proc := waitQueues[q][0];
        waitQueues := waitQueues[q := waitQueues[q][1..]];
        readyQueue := readyQueue + [proc];
        n := n + 1;
      }
      assert Waiting(s, q)[..n] == Waiting(s, q);
      IrqEnable();
    }

    /** `PROC_reschedule`: interrupts stay off exactly when a switch is due. */
    method Reschedule()
      requires irqSemaphore == 0 && nextProc.Proc?
      modifies `nextProc, `sleepCurr, `readyQueue, `irqSemaphore, `interruptFlag
      ensures var r := if old(currProc).Proc? && !old(sleepCurr) then old(readyQueue) + [old(currProc).pid]
                       else old(readyQueue);
              if r == [] then nextProc == Proc(MAIN) && sleepCurr && readyQueue == []
              else nextProc == Proc(r[0]) && !sleepCurr && readyQueue == r[1..]
      ensures irqSemaphore == if currProc == nextProc then 0 else 1
      ensures interruptFlag <==> currProc == nextProc
    {
      IrqDisable();
      if currProc.Proc? && !sleepCurr {
        readyQueue := readyQueue + [currProc.pid];
      }
      if readyQueue == [] {
        nextProc := Proc(MAIN);
        sleepCurr := true;
      } else {
        nextProc := Proc(readyQueue[0]);
        readyQueue := readyQueue[1..];
        sleepCurr := false;
      }
      if currProc == nextProc {
        IrqEnable();
      }
    }

    /**
      The part of `IRQ_generic_isr` after the handler. `flag` is the interrupt flag in the flags the processor pushed on
      entry; they are saved with the old context, and those of the new one take their place.
     */
    method SwitchIfDue(flag: bool) returns (flag': bool)
      requires nextProc.Proc?
      modifies `currProc, `irqSemaphore, `interruptFlag, `savedFlags
      ensures currProc == nextProc
      ensures old(currProc) == nextProc ==> irqSemaphore == old(irqSemaphore) && interruptFlag == old(interruptFlag)
      ensures old(currProc) == nextProc ==> savedFlags == old(savedFlags) && flag' == flag
      ensures old(currProc) != nextProc ==>
                && irqSemaphore == (if old(irqSemaphore) == 0 then 0 else old(irqSemaphore) - 1)
                && interruptFlag == (old(interruptFlag) || old(irqSemaphore) == 1)
                && savedFlags == (if old(currProc).Null? then old(savedFlags)
                                  else if flag then old(savedFlags) + {old(currProc).pid}
                                  else old(savedFlags) - {old(currProc).pid})
                && flag' == (nextProc.pid in savedFlags)
    {
      flag' := flag;
      if currProc != nextProc {
        if currProc.Proc? {
          savedFlags := if flag then savedFlags + {currProc.pid} else savedFlags - {currProc.pid};
        }
        flag' := nextProc.pid in savedFlags;
        currProc := nextProc;
        IrqEnable();
      }
    }

    /**
      The trap of `yield` from any process or none, up to its tail: what is chosen, and whose flags are saved and will
      be loaded. In the tail the depth is 0, no switch is pending and the interrupt flag is set, whoever was chosen.
     */
    method Trap()
      requires irqSemaphore == 0 && nextProc.Proc? && !inTail
      modifies `currProc, `nextProc, `sleepCurr, `readyQueue, `irqSemaphore, `interruptFlag, `savedFlags, `inTail, `returnFlag
      ensures var r := if old(currProc).Proc? && !old(sleepCurr) then old(readyQueue) + [old(currProc).pid]
                       else old(readyQueue);
              var next := if r == [] then MAIN else r[0];
              && currProc == nextProc == Proc(next) && irqSemaphore == 0 && interruptFlag && inTail
              && sleepCurr == (r == []) && readyQueue == (if r == [] then [] else r[1..])
              && (if old(currProc) == Proc(next) then returnFlag == old(interruptFlag) && savedFlags == old(savedFlags)
                  else
                    && returnFlag == (next in savedFlags)
                    && savedFlags == (if old(currProc).Null? then old(savedFlags)
                                      else if old(interruptFlag) then old(savedFlags) + {old(currProc).pid}
                                      else old(savedFlags) - {old(currProc).pid}))
    {
      var flag := interruptFlag;            // pushed by the trap
      Reschedule();
      flag := SwitchIfDue(flag);
      inTail, returnFlag := true, flag;     // to be popped by the return from it
    }

    /**
      The trap of `yield`, up to its tail: the depth is 0 before and after, no switch is left pending, and each process
      will get its own flag back.
     */
    method YieldTrap()
      requires AtRest() && Enabled(State(), Event.YieldTrap)
      modifies this
      ensures AtRest() && State() == Yield(old(State()))
    {
      Return();
      Trap();
      yielding := false;
    }

    /**
      A device interrupt whose handler wakes one or all processes of a queue, in the running process or in the tail of
      the trap that chose it: it never switches context.
     */
    method DeviceInterrupt(q: Qid, all: bool)
      requires Interruptible()
      modifies this
      ensures Interruptible() && currProc == old(currProc)
      ensures State() == if all then WakeAll(old(State()), q) else WakeHead(old(State()), q)
    {
      var flag := interruptFlag;            // pushed, and then cleared, by the processor
      interruptFlag := false;
      irqSemaphore := irqSemaphore + 1;
      if all {
        UnblockAll(q);
      } else {
        UnblockHead(q);
      }
      flag := SwitchIfDue(flag);
      irqSemaphore := irqSemaphore - 1;
      interruptFlag := flag;
    }

    /**
      `PROC_create_process`: -1, with nothing changed, when memory for the process is not to be had; `MMU_alloc_stack`
      never refuses, and sets the interrupt flag at the end of its critical section.
     */
    method CreateProcess(p: Pid, gotProcess: bool) returns (r: int)
      requires AtRest() && Enabled(State(), Event.CreateProcess(p)) && p != currProc.pid
      modifies `readyQueue, `live, `savedFlags, `unmasked, `interruptFlag, `inTail, `irqSemaphore
      ensures r == if gotProcess then 0 else -1
      ensures AtRest() && State() == if r == 0 then Create(old(State()), p) else old(State()).(tail := false)
    {
      Return();
      if !gotProcess {
        return -1;
      }
      EnterSection();
      LeaveSection();
      savedFlags := savedFlags - {p};       // memset
      readyQueue := readyQueue + [p];
      live, unmasked := live + {p}, unmasked - {p};
      return 0;
    }

    /**
      The same with a device interrupt between the two insertions, which are not protected: the outcome is that of an
      interrupt after both.
     */
    method CreateInterrupted(p: Pid, q: Qid, all: bool)
      requires AtRest() && Enabled(State(), Event.CreateProcess(p)) && p != currProc.pid
      modifies this
      ensures Interruptible()
      ensures State() == if all then WakeAll(Create(old(State()), p), q) else WakeHead(Create(old(State()), p), q)
    {
      EnterSection();
      LeaveSection();
      savedFlags := savedFlags - {p};
      readyQueue, unmasked := readyQueue + [p], unmasked - {p};
      DeviceInterrupt(q, all);
      live := live + {p};
    }

    /** `process_exit`, without an interrupt between clearing `curr_proc` and the trap. */
    method ExitProcess()
      requires AtRest() && Enabled(State(), Event.ExitProcess) && currProc.pid !in readyQueue
      modifies this
      ensures AtRest() && State() == Exit(old(State()))
    {
      Return();
      live, unmasked := live - {currProc.pid}, unmasked - {currProc.pid};
      savedFlags := savedFlags - {currProc.pid};
      currProc := Null;
      Trap();
      yielding := false;
    }

    /**
      The same with a device interrupt in that window: `curr_proc` and `next_proc` differ, so the
      handler's return switches back to the process that has just exited, and the counter drops to -1.
     */
    method ExitInterrupted()
      requires AtRest() && Enabled(State(), Event.ExitProcess) && currProc.pid in unmasked
      modifies this
      ensures currProc == old(currProc) && currProc.pid !in live
      ensures irqSemaphore == -1
    {
      Return();
      live := live - {currProc.pid};
      currProc := Null;
      var flag := interruptFlag;
      interruptFlag := false;
      irqSemaphore := irqSemaphore + 1;
      flag := SwitchIfDue(flag);
      irqSemaphore := irqSemaphore - 1;
      interruptFlag := flag;
    }

    /** One turn of the loop of `PROC_run` up to its yield. */
    method RunMain()
      requires AtRest() && Enabled(State(), Event.RunMain)
      modifies this
      ensures AtRest() && State() == MainSleeps(old(State()))
    {
      EnterSection();
      sleepCurr := true;
      LeaveSection();
      yielding := true;
    }

    /** One event of the transition system, made by the code. */
    method Perform(e: Event)
      requires AtRest() && Inv(State()) && Enabled(State(), e)
      modifies this
      ensures AtRest() && State() == Step(old(State()), e)
    {
      hide Yield, Block, WakeHead, WakeAll, Create, Exit, MainSleeps, Inv;
      RunningUnqueued(State());
      match e
      case BlockOn(q) =>
        BlockForgetsTail(State(), q);
        EnterSection();
        BlockAndLeave(q);
      case UnblockHead(q) => DeviceInterrupt(q, false);
      case UnblockAll(q) => DeviceInterrupt(q, true);
      case YieldTrap => YieldTrap();
      case CreateProcess(p) =>
        var _ := CreateProcess(p, true);
      case ExitProcess => ExitProcess();
      case RunMain => RunMain();
      case Section =>
        EnterSection();
        LeaveSection();
    }

    /** Any enabled run from boot or later: the code is in lockstep with the transition system. */
    method Execute(events: seq<Event>)
      requires AtRest() && Inv(State()) && EnabledRun(State(), events)
      modifies this
      ensures AtRest() && State() == Run(old(State()), events)
    {
      hide Step, Enabled, Inv;
      ghost var s := State();
      for i := 0 to |events|
        invariant AtRest() && Inv(State()) && EnabledRun(State(), events[i..])
        invariant Run(State(), events[i..]) == Run(s, events)
      {
        assert events[i..][0] == events[i] && events[i..][1..] == events[i + 1..];
        StepInv(State(), events[i]);
        Perform(events[i]);
      }
    }
  }

  /** A process that does something has returned from the trap. */
  lemma {:induction false} BlockForgetsTail(s: Sched, q: Qid)
    ensures Block(s.(tail := false), q) == Block(s, q)
  {
  }

  /** A process that runs, not on its way to sleep, is not in the ready queue, and one not yet created is not running. */
  lemma {:induction false} RunningUnqueued(s: Sched)
    requires Inv(s)
    ensures !s.yielding && s.curr != MAIN ==> s.curr !in s.ready
    ensures forall p :: p !in s.live && p != MAIN ==> p != s.curr
  {
    assert s.curr in s.ready ==> Queued(s, s.curr);
  }
}
