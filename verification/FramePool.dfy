/**
  Runs of the frame allocator and its clients, on the queue that module FrameQueue
  shows the allocator to be.
 */
module FramePool {
  import opened Basics
  import opened PhysicalMemory
  import opened FrameQueue

  /** What a client may do: take a frame, give back one it holds, or write any word into one it holds. */
  datatype Op = Alloc | Free(f: Frame) | Store(s: Slot, w: Word)

  /** The queue of free frames, the frames clients hold, and the two histories. */
  datatype Pool = Pool(free: seq<Frame>, held: set<Frame>, given: seq<Frame>, returned: seq<Frame>)

  predicate Allowed(p: Pool, op: Op) {
    match op
    case Alloc => true
    case Free(f) => f in p.held
    case Store(s, _) => s.frame in p.held
  }

  function Step(p: Pool, op: Op): Pool
    requires Allowed(p, op)
  {
    match op
    case Alloc =>
      if p.free == [] then p
      else Pool(p.free[1..], p.held + {p.free[0]}, p.given + [p.free[0]], p.returned)
    case Free(f) => Pool(p.free + [f], p.held - {f}, p.given, p.returned + [f])
    case Store(_, _) => p
  }

  ghost predicate AllowedRun(p: Pool, ops: seq<Op>)
    decreases |ops|
  {
    ops == [] || (Allowed(p, ops[0]) && AllowedRun(Step(p, ops[0]), ops[1..]))
  }

  function Run(p: Pool, ops: seq<Op>): Pool
    requires AllowedRun(p, ops)
    decreases |ops|
  {
    if ops == [] then p else Run(Step(p, ops[0]), ops[1..])
  }

  /** Free and held frames partition `all`, and no frame is queued twice. */
  ghost predicate Partition(p: Pool, all: set<Frame>) {
    && NoDup(p.free)
    && (forall f :: f in p.free ==> f !in p.held)
    && (forall f :: f in all <==> f in p.free || f in p.held)
  }

  /** Frames handed out, then frames still queued, are the initial queue followed by the frames returned. */
  ghost predicate Fifo(p: Pool, initial: seq<Frame>) {
    p.given + p.free == initial + p.returned
  }

  lemma {:induction false} StepConserves(p: Pool, op: Op, all: set<Frame>, initial: seq<Frame>)
    requires Allowed(p, op) && Partition(p, all) && Fifo(p, initial)
    ensures Partition(Step(p, op), all) && Fifo(Step(p, op), initial)
  {
    if op.Alloc? && p.free != [] {
      assert p.free == [p.free[0]] + p.free[1..];
    } else if op.Free? {
      assert p.given + (p.free + [op.f]) == (p.given + p.free) + [op.f];
    }
  }

  /** Over every run frames are neither lost nor duplicated and service is first in, first out. */
  lemma {:induction false} RunConserves(p: Pool, ops: seq<Op>, all: set<Frame>, initial: seq<Frame>)
    requires AllowedRun(p, ops) && Partition(p, all) && Fifo(p, initial)
    ensures Partition(Run(p, ops), all) && Fifo(Run(p, ops), initial)
    decreases |ops|
  {
    hide Partition, Fifo;
    if ops != [] {
      StepConserves(p, ops[0], all, initial);
      RunConserves(Step(p, ops[0]), ops[1..], all, initial);
    }
  }

  /** The first `i` operations of an allowed run, and the one after them. */
  lemma {:induction false} RunPrefix(p: Pool, ops: seq<Op>, i: nat)
    requires AllowedRun(p, ops) && i < |ops|
    ensures AllowedRun(p, ops[..i]) && Allowed(Run(p, ops[..i]), ops[i])
    ensures AllowedRun(p, ops[..i + 1]) && Run(p, ops[..i + 1]) == Step(Run(p, ops[..i]), ops[i])
    decreases i
  {
    hide Allowed, Step;
    var q := Step(p, ops[0]);
    if i == 0 {
      assert ops[..0] == [];
      assert ops[..1] == [ops[0]];
      assert AllowedRun(q, []) && ops[..1][1..] == [];
    } else {
      RunPrefix(q, ops[1..], i - 1);
      assert ops[..i][1..] == ops[1..][..i - 1] && ops[..i + 1][1..] == ops[1..][..i];
    }
  }
}
