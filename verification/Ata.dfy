/**
  src/drivers/disk/ata.c over the kernel of module Kernel, statement by statement. The ghost
  fields are the history of module AtaProtocol; each method is proved to make its steps.
 */
module Ata {
  import opened Scheduler
  import P = AtaProtocol
  import K = Kernel

  /** A block of 512 bytes as the 256 words read from the data register. */
  type Block = b: seq<nat> | |b| == 256 witness seq(256, _ => 0)

  class AtaDevice {
    const kernel: K.Kernel
    const disk: P.Lba -> Block
    var dev: P.Device
    var requests: seq<P.Request>
    ghost var pc: map<Pid, P.Pc>
    ghost var arrivals: seq<P.Request>
    ghost var served: seq<P.Request>
    ghost var got: seq<P.Lba>
    ghost var failed: bool

    ghost predicate Ready()
      reads this, kernel
    {
      kernel.AtRest()
    }

    ghost function State(): P.State
      requires Ready()
      reads this, kernel
    {
      P.State(kernel.State(), dev, requests, pc, arrivals, served, got, failed)
    }

    constructor (k: K.Kernel, blocks: P.Lba -> Block)
      requires k.AtRest() && k.State() == BOOT
      ensures kernel == k && disk == blocks && Ready() && State() == P.BOOTED
    {
      kernel, disk := k, blocks;
      dev, requests := P.Idle, [];
      pc, arrivals, served, got, failed := map[], [], [], [], false;
    }

    /** `ata_write_lba` and the read command. */
    method IssueRead(lba: P.Lba)
      modifies `dev
      ensures dev == P.Busy(lba)
    {
      dev := P.Busy(lba);
    }

    /** `ata_read_block` up to the yield in `PROC_block_on`. */
    method ReadBegin(lba: P.Lba)
      requires Ready() && P.Enabled(State(), P.AskFor(lba))
      modifies this, kernel
      ensures Ready() && State() == P.Ask(old(State()), lba)
      ensures requests == old(requests) + [P.Request(kernel.currProc.pid, lba)]
      ensures dev == if old(requests) == [] then P.Busy(lba) else old(dev)
    {
      ghost var me := kernel.currProc.pid;
      var req := P.Request(kernel.currProc.pid, lba);
      kernel.EnterSection();
      if requests == [] {
        IssueRead(lba);
      }
      requests := requests + [req];
      kernel.BlockAndLeave(P.ATA);
      arrivals := arrivals + [req];
      pc := pc[me := P.Asked(lba)];
    }

    /** The completion interrupt and `ata_isr`. */
    method Isr()
      requires Ready() && P.Enabled(State(), P.Interrupt)
      modifies this, kernel
      ensures Ready() && State() == P.Complete(old(State()))
    {
      dev := P.Data(dev.lba);
      kernel.DeviceInterrupt(P.ATA, false);
    }

    /** `ata_read`: 256 words from the data register. */
    method ReadData(dst: array<nat>)
      requires dev.Data? && dst.Length == 256
      modifies `dev, dst
      ensures dst[..] == disk(old(dev.lba)) && dev == P.Idle
    {
      var lba := dev.lba;
      for i := 0 to 256
        invariant dst[..i] == disk(lba)[..i]
      {
        dst[i] := disk(lba)[i];
      }
      dev := P.Idle;
    }

    /** `ata_read_block` after its yield: the data check, then `LL_dequeue`. In any state the protocol reaches there is data. */
    method TakeRequest() returns (r: int)
      requires Ready() && P.Inv(State()) && P.Enabled(State(), P.TakeHead)
      modifies this
      ensures Ready() && r == 0 && State() == P.Take(old(State()))
    {
      hide P.Inv;
      ghost var me := kernel.currProc.pid;
      P.ResumedOwnsHead(State());
      if !dev.Data? {
        return -1;
      }
      pc := pc[me := P.Taken(pc[me].lba, requests[0])];
      requests := requests[1..];
      return 0;
    }

    /** `ata_read` into the reader's buffer. */
    method CopyBlock(dst: array<nat>)
      requires Ready() && P.Enabled(State(), P.CopyData) && dst.Length == 256
      modifies this, dst
      ensures Ready() && State() == P.Copy(old(State())) && dst[..] == disk(old(dev).lba)
    {
      ghost var me := kernel.currProc.pid;
      served, got := served + [P.Request(me, pc[me].lba)], got + [dev.lba];
      pc := pc[me := P.Copied];
      ReadData(dst);
    }

    /** The end of `ata_read_block`: initiate the next read. */
    method IssueNext()
      requires Ready()
      modifies this
      ensures Ready() && State() == P.Issue(old(State()))
    {
      if requests != [] {
        IssueRead(requests[0].lba);
      }
      pc := pc[kernel.currProc.pid := P.Out];
    }

    /**
      `ata_read_block` from its return from the yield, when no interrupt comes in between. In any state the protocol
      can reach, it returns 0 with the block this process asked for, and leaves the next command issued.
     */
    method ReadEnd(dst: array<nat>) returns (r: int)
      requires Ready() && P.Inv(State()) && P.Enabled(State(), P.TakeHead) && dst.Length == 256
      modifies this, dst
      ensures Ready() && r == 0
      ensures dst[..] == disk(P.PcOf(old(State()), kernel.currProc.pid).lba)
      ensures P.PcOf(P.Take(old(State())), kernel.currProc.pid).Taken? && P.Take(old(State())).dev.Data?
      ensures State() == P.Issue(P.Copy(P.Take(old(State()))))
    {
      hide P.Inv;
      P.ResumedOwnsHead(State());
      r := TakeRequest();
      if r != 0 {
        return;
      }
      CopyBlock(dst);
      IssueNext();
    }

    /**
      Any run of readers, completion interrupts and the rest of the system, interrupts in the middle of a read
      included: the code is in lockstep with the protocol, and the i-th read that completed delivered the words of the
      block whose number the i-th call passed.
     */
    method Execute(events: seq<P.Event>) returns (blocks: seq<Block>)
      requires Ready() && P.Inv(State()) && P.EnabledRun(State(), events)
      modifies this, kernel
      ensures Ready() && State() == P.Run(old(State()), events) && P.Inv(State())
      ensures |served| == |old(served)| + |blocks| && |blocks| == |P.Copies(old(State()), events)|
      ensures arrivals == old(arrivals) + P.Calls(old(State()), events) && |served| <= |arrivals|
      ensures forall i :: 0 <= i < |blocks| ==> blocks[i] == disk(arrivals[|old(served)| + i].lba)
    {
      hide P.Inv, P.Step, P.Enabled, P.Calls, P.Copies;
      P.RunRecords(State(), events);
      blocks := [];
      ghost var s := State();
      HistoryOf(s);
      for k := 0 to |events|
        invariant Ready() && P.Inv(State()) && P.EnabledRun(State(), events[k..])
        invariant P.Run(State(), events[k..]) == P.Run(s, events)
        invariant |got| == |old(got)| + |blocks| && |got| == |served| && |old(got)| == |old(served)|
        invariant forall i :: 0 <= i < |blocks| ==> blocks[i] == disk(got[|old(got)| + i])
      {
        assert events[k..][0] == events[k] && events[k..][1..] == events[k + 1..];
        P.StepInv(State(), events[k]);
        var data := Perform(events[k]);
        HistoryOf(State());
        blocks := blocks + data;
      }
      HistoryOf(State());
    }

    lemma {:induction false} HistoryOf(s: P.State)
      requires P.Inv(s)
      ensures |s.got| == |s.served| <= |s.arrivals|
      ensures forall i :: 0 <= i < |s.got| ==> s.got[i] == s.served[i].lba && s.served[i] == s.arrivals[i]
    {
    }

    /** One event; the block delivered, if it is the copying of one. */
    method Perform(e: P.Event) returns (data: seq<Block>)
      requires Ready() && P.Inv(State()) && P.Enabled(State(), e)
      modifies this, kernel
      ensures Ready() && State() == P.Step(old(State()), e)
      ensures if e.CopyData? then |data| == 1 && got == old(got) + [old(dev).lba] && data[0] == disk(old(dev).lba)
              else data == [] && got == old(got)
    {
      hide P.Inv;
      data := [];
      match e
      case Other(f) =>
        P.InvSched(State());
        kernel.Perform(f);
      case AskFor(lba) => ReadBegin(lba);
      case Interrupt => Isr();
      case TakeHead =>
        var _ := TakeRequest();
      case CopyData =>
        var dst := new nat[256];
        CopyBlock(dst);
        data := [dst[..]];
      case IssueNext => IssueNext();
    }
  }
}
