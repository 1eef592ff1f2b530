/**
  src/drivers/keyboard/ps2.c over the kernel of module Kernel: the ring is an array updated in
  place, and each method is proved to make the step of module Ps2Protocol it stands for.
 */
module Ps2 {
  import opened Scheduler
  import P = Ps2Protocol
  import K = Kernel

  class Ps2Device {
    const kernel: K.Kernel
    const data: array<char>
    var pos: nat
    var users: map<P.File, nat>
    var numOpen: nat
    ghost var inRead: map<Pid, P.File>
    ghost var hist: seq<char>
    ghost var seen: map<P.File, nat>
    ghost var behind: map<Pid, nat>
    ghost var readings: seq<P.Reading>

    ghost function State(): P.State
      requires kernel.currProc.Proc?
      reads this, data, kernel
    {
      P.State(kernel.State(), data[..], pos, users, inRead, hist, seen, behind, readings)
    }

    ghost predicate Ready()
      reads this, data, kernel
    {
      kernel.AtRest() && P.Shaped(State()) && P.Synced(State())
    }

    constructor (k: K.Kernel)
      requires k.AtRest() && k.State() == BOOT
      ensures kernel == k && fresh(data) && Ready() && State() == P.Booted(data[..])
    {
      kernel, data := k, new char[128];
      pos, users, numOpen, inRead, hist, seen, behind, readings := 0, map[], 0, map[], [], map[], map[], [];
    }

    /** `consumer_has_bytes`. */
    method ConsumerHasBytes(user: P.File) returns (r: bool)
      requires user in users && users[user] < 128 && pos < 128
      ensures r <==> 0 < P.Avail(users[user], pos)
    {
      r := !(users[user] == pos);
    }

    /** `consumer_read_next`. */
    method ConsumerReadNext(user: P.File) returns (c: char)
      requires user in users && users[user] < 128 && data.Length == 128
      modifies `users
      ensures c == data[old(users)[user]] && users == old(users)[user := (old(users)[user] + 1) % 128]
    {
      c := data[users[user]];
      users := users[user := (users[user] + 1) % 128];
    }

    /** `producer_add`. */
    method ProducerAdd(c: char)
      requires pos < data.Length == 128
      modifies data, `pos
      ensures data[..] == old(data[..])[old(pos) := c] && pos == (old(pos) + 1) % 128
    {
      data[pos] := c;
      pos := (pos + 1) % 128;
    }

    /** `ps2_isr`: a scan code without a character changes nothing, any other wakes every reader. */
    method Isr(c: char)
      requires Ready() && CanInterrupt(kernel.State())
      modifies this, data, kernel
      ensures kernel.AtRest()
      ensures State() == if c == '\0' then old(State()) else P.Key(old(State()), c)
    {
      hide P.Holds;
      if c == '\0' {
        return;
      }
      ProducerAdd(c);
      kernel.DeviceInterrupt(P.PS2, true);
      hist := hist + [c];
    }

    /** `ps2_open` of file `f`: -1, with nothing changed, when there is no memory for the reader's state. */
    method Open(f: P.File, gotMemory: bool) returns (r: int)
      requires Ready()
      modifies `users, `numOpen, `seen, kernel
      ensures r == if gotMemory then 0 else -1
      ensures kernel.AtRest() && State() == if gotMemory then P.Open(old(State()), f) else old(State())
      ensures numOpen == old(numOpen) + if gotMemory then 1 else 0
      ensures gotMemory ==> users == old(users)[f := pos] && seen == old(seen)[f := |hist|]
    {
      if !gotMemory {
        return -1;
      }
      kernel.EnterSection();
      numOpen := numOpen + 1;
      users := users[f := pos];
      seen := seen[f := |hist|];
      kernel.LeaveSection();
      return 0;
    }

    /**
      `ps2_read` from its first or a repeated test: with nothing to read the process blocks, up to its yield;
      otherwise up to `len` characters are copied and the call returns.
     */
    method ReadAttempt(f: P.File, dest: array<char>, len: nat) returns (blocked: bool, n: nat)
      requires Ready() && P.Enabled(State(), P.Read(f, len)) && len <= dest.Length && dest != data
      modifies this, kernel, dest
      ensures kernel.AtRest() && State() == P.Attempt(old(State()), f, len)
      ensures blocked <==> old(users)[f] == pos
      ensures !blocked ==> n == P.Min(len, P.Avail(old(users)[f], pos))
      ensures !blocked ==> dest[..n] == P.Slice(data[..], old(users)[f], n)
    {
      hide P.FallAsleep, P.Deliver, P.Synced, P.Slice, P.Avail;
      UserInRing(f);
      P.ReadForgetsTail(State(), f, len);
      kernel.EnterSection();
      if users[f] == pos {
        FallAsleep(f);
        return true, 0;
      }
      n := Deliver(f, dest, len);
      return false, n;
    }

    /** The running process is in its outermost critical section, reading file `f`. */
    ghost predicate Reading(f: P.File)
      reads this, data, kernel
    {
      kernel.InSection() && P.Shaped(State()) && f in users && users[f] < 128
    }

    /** The body of the loop of `ps2_read` up to its yield. */
    method FallAsleep(ghost f: P.File)
      requires Reading(f)
      modifies `inRead, `behind, kernel
      ensures kernel.AtRest() && State() == P.FallAsleep(old(State()), f)
    {
      ghost var me := kernel.currProc.pid;
      kernel.BlockAndLeave(P.PS2);
      inRead, behind := inRead[me := f], behind[me := |hist| - seen[f]];
    }

    /** The end of `ps2_read`. */
    method Deliver(f: P.File, dest: array<char>, len: nat) returns (n: nat)
      requires Reading(f) && len <= dest.Length && dest != data
      modifies `users, `seen, `readings, `inRead, dest, kernel
      ensures kernel.AtRest() && State() == P.Deliver(old(State()), f, len)
      ensures n == P.Min(len, P.Avail(old(users)[f], pos))
      ensures dest[..n] == P.Slice(data[..], old(users)[f], n)
    {
      hide P.Resume, P.Slice, P.Avail;
      ghost var me := kernel.currProc.pid;
      ghost var upos := users[f];
      n := CopyOut(f, dest, len);
      readings := readings + [P.Reading(me, f, seen[f], |hist|, P.Slice(data[..], upos, n))];
      seen := seen[f := P.Resume(seen[f], |hist|) + n];
      inRead := inRead - {me};
      kernel.LeaveSection();
    }

    /** One event of the protocol, made by the code; the characters delivered, if it is a read that returns. */
    method Perform(e: P.Event) returns (text: seq<seq<char>>)
      requires Ready() && Scheduler.Inv(kernel.State()) && P.Enabled(State(), e)
      modifies this, data, kernel
      ensures kernel.AtRest() && State() == P.Step(old(State()), e)
      ensures |readings| == |old(readings)| + |text| && old(readings) <= readings
      ensures forall i :: 0 <= i < |text| ==> text[i] == readings[|old(readings)| + i].chars
    {
      hide P.Holds, P.Resume, P.Synced, P.Slice, P.Avail, Scheduler.Step, Scheduler.Inv;
      text := [];
      match e
      case Other(f) => kernel.Perform(f);
      case OpenDevice(f) =>
        var _ := Open(f, true);
      case KeyPressed(c) => Isr(c);
      case Read(f, len) =>
        var dest := new char[len];
        var blocked, n := ReadAttempt(f, dest, len);
        if !blocked {
          text := [dest[..n]];
        }
    }

    /**
      Any run of key interrupts, readers and the rest of the system: the code is in lockstep with the protocol, and
      the buffers of the readers hold the characters it says.
     */
    method Execute(events: seq<P.Event>) returns (text: seq<seq<char>>)
      requires Ready() && P.Inv(State()) && P.EnabledRun(State(), events)
      modifies this, data, kernel
      ensures Ready() && State() == P.Run(old(State()), events) && P.Inv(State())
      ensures |readings| == |old(readings)| + |text|
      ensures forall i :: 0 <= i < |text| ==> text[i] == readings[|old(readings)| + i].chars
    {
      hide P.Inv, P.Step, P.Enabled, P.Synced, P.Shaped;
      text := [];
      ghost var s := State();
      for k := 0 to |events|
        invariant Ready() && P.Inv(State()) && P.EnabledRun(State(), events[k..])
        invariant P.Run(State(), events[k..]) == P.Run(s, events)
        invariant |readings| == |old(readings)| + |text|
        invariant forall i :: 0 <= i < |text| ==> text[i] == readings[|old(readings)| + i].chars
      {
        assert events[k..][0] == events[k] && events[k..][1..] == events[k + 1..];
        P.StepInv(State(), events[k]);
        P.InvSynced(State());
        var more := Perform(events[k]);
        P.InvSynced(State());
        text := text + more;
      }
    }

    /** The position of a reader is inside the ring. */
    lemma {:induction false} UserInRing(user: P.File)
      requires Ready() && user in users
      ensures users[user] < 128
    {
    }

    /** The copying loop of `ps2_read`. */
    method CopyOut(user: P.File, dest: array<char>, len: nat) returns (n: nat)
      requires user in users && users[user] < 128 && pos < data.Length == 128 && len <= dest.Length && dest != data
      modifies `users, dest
      ensures n == P.Min(len, P.Avail(old(users)[user], pos))
      ensures dest[..n] == P.Slice(data[..], old(users)[user], n)
      ensures users == old(users)[user := (old(users)[user] + n) % 128]
    {
      hide P.Slice;
      n := 0;
      ghost var upos := users[user];
      SliceStep(data[..], upos, 0);
      var more := ConsumerHasBytes(user);
      while n < len && more
        invariant n <= len && n <= P.Avail(upos, pos)
        invariant users == old(users)[user := (upos + n) % 128]
        invariant more <==> n < P.Avail(upos, pos)
        invariant dest[..n] == P.Slice(data[..], upos, n)
        invariant data[..] == old(data[..])
        decreases len - n
      {
        SliceStep(data[..], upos, n + 1);
        var c := ConsumerReadNext(user);
        dest[n] := c;
        n := n + 1;
        AvailStep(upos, pos, n);
        more := ConsumerHasBytes(user);
      }
    }
  }

  lemma {:induction false} SliceStep(ring: seq<char>, upos: nat, n: nat)
    requires |ring| == 128
    ensures n == 0 ==> P.Slice(ring, upos, n) == []
    ensures 0 < n ==> P.Slice(ring, upos, n) == P.Slice(ring, upos, n - 1) + [ring[(upos + n - 1) % 128]]
  {
  }

  lemma {:induction false} AvailStep(upos: nat, pos: nat, n: nat)
    requires upos < 128 && pos < 128 && n <= P.Avail(upos, pos)
    ensures P.Avail((upos + n) % 128, pos) == P.Avail(upos, pos) - n
    ensures n > 0 ==> ((upos + n - 1) % 128 + 1) % 128 == (upos + n) % 128
  {
    var d := if pos >= upos then pos - upos else pos - upos + 128;
    var u := if upos + n < 128 then upos + n else upos + n - 128;
    assert P.Avail(upos, pos) == d;
    assert (upos + n) % 128 == u;
    assert (pos - u) % 128 == d - n;
  }
}
