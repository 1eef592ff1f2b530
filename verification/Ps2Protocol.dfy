/**
  The keyboard of src/drivers/keyboard/ps2.c: one interrupt handler writes characters into a
  ring of 128, any number of readers each follow it with a position of their own and sleep
  when they have caught up.
 */
module Ps2Protocol {
  import opened Scheduler

  /** The wait queue `ps2_dev.blocked_procs`. */
  const PS2: Qid := 2

  // ------------------------------------------------------------------
  // The ring
  // ------------------------------------------------------------------

  /** Characters between a reader's position and the device's. */
  function Avail(upos: nat, pos: nat): (n: nat)
    ensures n < 128
    ensures upos < 128 && pos < 128 ==> (n == 0 <==> upos == pos)
  {
    (pos - upos) % 128
  }

  /** The first `n` characters from position `upos` on. */
  function Slice(ring: seq<char>, upos: nat, n: nat): (r: seq<char>)
    requires |ring| == 128
    ensures |r| == n
    decreases n
  {
    if n == 0 then [] else Slice(ring, upos, n - 1) + [ring[(upos + n - 1) % 128]]
  }

  /** The ring holds the last 128 characters of everything produced so far. */
  ghost predicate Holds(ring: seq<char>, pos: nat, hist: seq<char>) {
    && |ring| == 128
    && pos == |hist| % 128
    && forall k :: 0 <= k < |hist| && |hist| - 128 <= k ==> ring[k % 128] == hist[k]
  }

  lemma {:induction false} ProduceHolds(ring: seq<char>, pos: nat, hist: seq<char>, c: char)
    requires Holds(ring, pos, hist)
    ensures Holds(ring[pos := c], (pos + 1) % 128, hist + [c])
  {
    var ring', hist' := ring[pos := c], hist + [c];
    forall k | 0 <= k < |hist'| && |hist'| - 128 <= k
      ensures ring'[k % 128] == hist'[k]
    {
      if k < |hist| {
        assert ring[k % 128] == hist[k];
        assert k % 128 != pos by {
          assert 0 < |hist| - k < 128;
        }
      }
    }
  }

  lemma {:induction false} ModAdd(a: nat, b: nat)
    ensures (a % 128 + b) % 128 == (a + b) % 128
  {
  }

  lemma {:induction false} RingAt(ring: seq<char>, pos: nat, hist: seq<char>, start: nat, i: nat)
    requires Holds(ring, pos, hist) && start + i < |hist| <= start + 128
    ensures ring[(start % 128 + i) % 128] == hist[start + i]
  {
    ModAdd(start, i);
  }

  lemma {:induction false} SliceIsWindow(ring: seq<char>, pos: nat, hist: seq<char>, start: nat, n: nat)
    requires |ring| == 128 && Holds(ring, pos, hist) && start + n <= |hist| <= start + 128
    ensures Slice(ring, start % 128, n) == hist[start..start + n]
    decreases n
  {
    hide Holds;
    if n > 0 {
      SliceIsWindow(ring, pos, hist, start, n - 1);
      RingAt(ring, pos, hist, start, n - 1);
      assert hist[start..start + n] == hist[start..start + n - 1] + [hist[start + n - 1]];
    }
  }

  /** Where a reader that saw `seen` of `total` characters resumes. */
  function Resume(seen: nat, total: nat): (start: nat)
    requires seen <= total
    ensures seen <= start <= total < start + 128
    ensures start == seen <==> total - seen < 128
    ensures start % 128 == seen % 128
    ensures total - start == Avail(seen % 128, total % 128)
  {
    WholeLaps(seen, total);
    Residues(seen, total);
    total - (total - seen) % 128
  }

  /** The characters missed are whole laps of the ring. */
  lemma {:induction false} WholeLaps(seen: nat, total: nat)
    requires seen <= total
    ensures var start := total - (total - seen) % 128;
            seen <= start <= total < start + 128 && start % 128 == seen % 128 && (start == seen <==> total - seen < 128)
  {
    var laps := (total - seen) / 128;
    assert total - (total - seen) % 128 == seen + 128 * laps;
  }

  lemma {:induction false} Residues(seen: nat, total: nat)
    requires seen <= total
    ensures (total - seen) % 128 == Avail(seen % 128, total % 128)
  {
    var a, b := seen / 128, total / 128;
    assert total - seen == 128 * (b - a) + (total % 128 - seen % 128);
  }

  /**
    What a reader gets, wrap-around included: from where it resumes on, characters in the order they were
    produced. It has missed none exactly when fewer than 128 were outstanding.
   */
  lemma {:induction false} SliceIsHistory(ring: seq<char>, pos: nat, hist: seq<char>, seen: nat, n: nat)
    requires Holds(ring, pos, hist) && seen <= |hist| && n <= Avail(seen % 128, pos)
    ensures var start := Resume(seen, |hist|);
            && start + n <= |hist| && Slice(ring, seen % 128, n) == hist[start..start + n]
            && (start == seen <==> |hist| - seen < 128)
  {
    SliceIsWindow(ring, pos, hist, Resume(seen, |hist|), n);
  }

  // ------------------------------------------------------------------
  // Readers
  // ------------------------------------------------------------------

  /** An open file; its `private_data` is a `struct PS2User`. */
  type File = nat

  /** A read by `reader` that returned `chars` from `file`, which was past `seen` of the `total` characters produced. */
  datatype Reading = Reading(reader: Pid, file: File, seen: nat, total: nat, chars: seq<char>)

  datatype State = State(
    sched: Sched,
    ring: seq<char>,             // ps2_dev.data
    pos: nat,                    // ps2_dev.pos
    users: map<File, nat>,       // user->pos of each file opened on the device
    inRead: map<Pid, File>,      // processes inside ps2_read after a sleep, with the file they read
    hist: seq<char>,             // every character produced
    seen: map<File, nat>,        // how many of them each file is past
    behind: map<Pid, nat>,       // how many were outstanding when a reader last went to sleep
    readings: seq<Reading>)

  /** Positions are inside the ring. */
  predicate Shaped(s: State) {
    && |s.ring| == 128 && s.pos < 128
    && forall f :: f in s.users ==> f in s.seen && s.seen[f] <= |s.hist|
  }

  /** `ps2_open`, its critical section. */
  function Open(s: State, f: File): State {
    s.(sched := Unmask(s.sched), users := s.users[f := s.pos], seen := s.seen[f := |s.hist|])
  }

  /** `ps2_isr` with a printable character: `producer_add` and `PROC_unblock_all`. */
  function Key(s: State, c: char): State
    requires Shaped(s)
  {
    s.(ring := s.ring[s.pos := c], pos := (s.pos + 1) % 128, hist := s.hist + [c], sched := WakeAll(s.sched, PS2))
  }

  function Min(a: nat, b: nat): nat {
    if a < b then a else b
  }

  /** The running process found nothing to read. */
  function FallAsleep(s: State, f: File): State
    requires Shaped(s) && f in s.users
  {
    var p := s.sched.curr;
    s.(sched := Block(s.sched, PS2), inRead := s.inRead[p := f], behind := s.behind[p := |s.hist| - s.seen[f]])
  }

  /** It reads up to `len` characters and returns. */
  function Deliver(s: State, f: File, len: nat): State
    requires Shaped(s) && f in s.users
  {
    var p := s.sched.curr;
    var n := Min(len, Avail(s.users[f], s.pos));
    s.(sched := Unmask(s.sched), users := s.users[f := (s.users[f] + n) % 128], inRead := s.inRead - {p},
       seen := s.seen[f := Resume(s.seen[f], |s.hist|) + n],
       readings := s.readings + [Reading(p, f, s.seen[f], |s.hist|, Slice(s.ring, s.users[f], n))])
  }

  /** One pass through `ps2_read`. */
  function Attempt(s: State, f: File, len: nat): State
    requires Shaped(s) && f in s.users
  {
    if s.users[f] == s.pos then FallAsleep(s, f) else Deliver(s, f, len)
  }

  /** A process that reads has returned from the trap that chose it. */
  lemma {:induction false} ReadForgetsTail(s: State, f: File, len: nat)
    requires Shaped(s) && f in s.users
    ensures var s' := s.(sched := s.sched.(tail := false));
            FallAsleep(s', f) == FallAsleep(s, f) && Deliver(s', f, len) == Deliver(s, f, len)
  {
    hide Resume, Avail, Slice;
  }

  /** A key's scan code is translated to `c`, '\0' for a code without a character. */
  datatype Event = Other(e: Scheduler.Event) | OpenDevice(f: File) | KeyPressed(c: char) | Read(f: File, len: nat)

  /** What the rest of the system may do: anything not on this wait queue, by processes outside `ps2_read`. */
  predicate Foreign(s: State, e: Scheduler.Event) {
    match e
    case UnblockHead(q) => q != PS2
    case UnblockAll(q) => q != PS2
    case BlockOn(q) => q != PS2 && s.sched.curr !in s.inRead
    case YieldTrap => s.sched.yielding || s.sched.curr !in s.inRead
    case CreateProcess(p) => p !in s.inRead
    case ExitProcess => s.sched.curr !in s.inRead
    case RunMain => true
    case Section => true
  }

  predicate Enabled(s: State, e: Event) {
    var running := !s.sched.yielding && s.sched.curr != MAIN;
    match e
    case Other(f) => Scheduler.Enabled(s.sched, f) && Foreign(s, f)
    case OpenDevice(f) => running && s.sched.curr !in s.inRead && f !in s.users
    case KeyPressed(_) => CanInterrupt(s.sched)
    case Read(f, _) => running && f in s.users && (s.sched.curr in s.inRead ==> s.inRead[s.sched.curr] == f)
  }

  /** Ring, positions and histories fit together. */
  ghost predicate Synced(s: State) {
    && Holds(s.ring, s.pos, s.hist)
    && (forall f :: f in s.users ==> f in s.seen && s.seen[f] <= |s.hist| && s.users[f] == s.seen[f] % 128)
  }

  /** No wake-up is lost: nothing was produced since a sleeping reader found its file's position equal to the device's. */
  ghost predicate NoLostWakeup(s: State) {
    forall p :: p in Waiting(s.sched, PS2) ==> p in s.inRead && Asleep(s, p, s.inRead[p])
  }

  ghost predicate Asleep(s: State, p: Pid, f: File) {
    && f in s.users && s.users[f] == s.pos
    && f in s.seen && s.seen[f] <= |s.hist| && p in s.behind && s.behind[p] == |s.hist| - s.seen[f]
  }

  /** Every read returned what was produced after the point where its reader resumed, in order. */
  ghost predicate Faithful(s: State) {
    forall i :: 0 <= i < |s.readings| ==> FaithfulReading(s.readings[i], s.hist)
  }

  ghost predicate FaithfulReading(r: Reading, hist: seq<char>) {
    && r.seen <= r.total <= |hist|
    && Resume(r.seen, r.total) + |r.chars| <= r.total
    && r.chars == hist[Resume(r.seen, r.total)..Resume(r.seen, r.total) + |r.chars|]
  }

  ghost predicate Inv(s: State) {
    Scheduler.Inv(s.sched) && Synced(s) && NoLostWakeup(s) && Faithful(s)
  }

  function Step(s: State, e: Event): State
    requires Enabled(s, e)
  {
    if !Shaped(s) then s else    // does not happen: Synced implies it
    match e
    case Other(f) => s.(sched := Scheduler.Step(s.sched, f))
    case OpenDevice(f) => Open(s, f)
    case KeyPressed(c) => if c == '\0' then s else Key(s, c)
    case Read(f, len) => Attempt(s, f, len)
  }

  lemma {:induction false} FaithfulGrows(s: State, hist: seq<char>)
    requires Faithful(s) && s.hist <= hist
    ensures forall i :: 0 <= i < |s.readings| ==> FaithfulReading(s.readings[i], hist)
  {
    forall i | 0 <= i < |s.readings|
      ensures FaithfulReading(s.readings[i], hist)
    {
      assert FaithfulReading(s.readings[i], s.hist);
    }
  }

  lemma {:induction false} SyncedShaped(s: State)
    requires Synced(s)
    ensures Shaped(s)
  {
  }

  lemma {:induction false} KeyInv(s: State, c: char)
    requires Inv(s) && Shaped(s)
    ensures Inv(Key(s, c))
  {
    hide Scheduler.Inv, FaithfulReading, Holds;
    ProduceHolds(s.ring, s.pos, s.hist, c);
    WakeAllInv(s.sched, PS2);
    FaithfulGrows(s, s.hist + [c]);
  }

  lemma {:induction false} OpenInv(s: State, f: File)
    requires Inv(s) && Enabled(s, OpenDevice(f))
    ensures Inv(Open(s, f))
  {
    hide Scheduler.Inv, FaithfulReading;
    UnmaskInv(s.sched);
  }

  lemma {:induction false} AttemptInv(s: State, f: File, len: nat)
    requires Inv(s) && Shaped(s) && Enabled(s, Read(f, len))
    ensures Inv(Attempt(s, f, len))
  {
    hide Scheduler.Inv, FaithfulReading, Holds;
    RunningNotWaiting(s.sched, PS2);
    if s.users[f] == s.pos {
      BlockInv(s.sched, PS2);
    } else {
      UnmaskInv(s.sched);
      ReadingFaithful(s, f, len);
    }
  }

  lemma {:induction false} ReadingFaithful(s: State, f: File, len: nat)
    requires Synced(s) && Shaped(s) && f in s.users
    ensures var n := Min(len, Avail(s.users[f], s.pos));
            var r := Reading(s.sched.curr, f, s.seen[f], |s.hist|, Slice(s.ring, s.users[f], n));
            && FaithfulReading(r, s.hist)
            && Resume(s.seen[f], |s.hist|) + n <= |s.hist|
            && (Resume(s.seen[f], |s.hist|) + n) % 128 == (s.users[f] + n) % 128
  {
    hide Holds, Resume, Avail, Slice;
    var n := Min(len, Avail(s.users[f], s.pos));
    SliceIsHistory(s.ring, s.pos, s.hist, s.seen[f], n);
    ModAdd(Resume(s.seen[f], |s.hist|), n);
    ModAdd(s.seen[f], n);
  }

  lemma {:induction false} OtherInv(s: State, e: Scheduler.Event)
    requires Inv(s) && Enabled(s, Other(e))
    ensures Inv(Step(s, Other(e)))
  {
    hide Scheduler.Inv, FaithfulReading, Holds, Dispatch;
    Scheduler.StepInv(s.sched, e);
    assert Waiting(Scheduler.Step(s.sched, e), PS2) == Waiting(s.sched, PS2) by {
      ForeignKeeps(s, e);
    }
  }

  lemma {:induction false} ForeignKeeps(s: State, e: Scheduler.Event)
    requires Foreign(s, e)
    ensures Waiting(Scheduler.Step(s.sched, e), PS2) == Waiting(s.sched, PS2)
  {
  }

  lemma {:induction false} StepInv(s: State, e: Event)
    requires Inv(s) && Enabled(s, e)
    ensures Inv(Step(s, e))
  {
    SyncedShaped(s);
    match e
    case Other(f) => OtherInv(s, f);
    case OpenDevice(f) => OpenInv(s, f);
    case KeyPressed(c) =>
      if c != '\0' {
        KeyInv(s, c);
      }
    case Read(f, len) => AttemptInv(s, f, len);
  }

  ghost predicate EnabledRun(s: State, events: seq<Event>)
    decreases |events|
  {
    events == [] || (Enabled(s, events[0]) && EnabledRun(Step(s, events[0]), events[1..]))
  }

  ghost function Run(s: State, events: seq<Event>): State
    requires EnabledRun(s, events)
    decreases |events|
  {
    if events == [] then s else Run(Step(s, events[0]), events[1..])
  }

  lemma {:induction false} RunInv(s: State, events: seq<Event>)
    requires Inv(s) && EnabledRun(s, events)
    ensures Inv(Run(s, events))
    decreases |events|
  {
    hide Inv, Step, Enabled;
    if events != [] {
      StepInv(s, events[0]);
      RunInv(Step(s, events[0]), events[1..]);
    }
  }

  /** The device at boot, whatever its buffer holds. */
  function Booted(ring: seq<char>): State {
    State(BOOT, ring, 0, map[], map[], [], map[], map[], [])
  }

  lemma {:induction false} BootedInv(ring: seq<char>)
    requires |ring| == 128
    ensures Inv(Booted(ring))
  {
    assert forall q :: Waiting(BOOT, q) == [];
  }

  /**
    For any number of readers and files and any arrival of keys, in every reachable state: a sleeping reader's file has
    a position equal to the device's, so the number of characters it has not read is a multiple of 128; it is zero exactly when fewer
    than 128 were outstanding as it went to sleep. Every read so far returned the characters produced from where its
    reader resumed, with none missed when fewer than 128 were outstanding.
   */
  lemma {:induction false} EveryRunWakesReaders(ring: seq<char>, events: seq<Event>)
    requires |ring| == 128 && EnabledRun(Booted(ring), events)
    ensures var s := Run(Booted(ring), events);
            && NoLostWakeup(s) && Faithful(s)
            && (forall p :: p in Waiting(s.sched, PS2) ==>
                  var seen := s.seen[s.inRead[p]];
                  seen % 128 == |s.hist| % 128 && (seen == |s.hist| <==> s.behind[p] < 128))
  {
    hide EnabledRun, Run;
    BootedInv(ring);
    RunInv(Booted(ring), events);
    var s := Run(Booted(ring), events);
    forall p | p in Waiting(s.sched, PS2)
      ensures var seen := s.seen[s.inRead[p]];
              seen % 128 == |s.hist| % 128 && (seen == |s.hist| <==> s.behind[p] < 128)
    {
      SameResidue(s.seen[s.inRead[p]], |s.hist|);
    }
  }

  lemma {:induction false} SameResidue(a: nat, b: nat)
    requires a <= b
    ensures a % 128 == b % 128 ==> a == b || a + 128 <= b
  {
  }

  // ------------------------------------------------------------------
  // What readers get, told from the events
  // ------------------------------------------------------------------

  /** The characters typed in a run. */
  function Typed(events: seq<Event>): seq<char>
    decreases |events|
  {
    if events == [] then []
    else (if events[0].KeyPressed? && events[0].c != '\0' then [events[0].c] else []) + Typed(events[1..])
  }

  /** How many characters had been typed when each file was opened, `n` of them before the run. */
  function Marks(m: map<File, nat>, n: nat, events: seq<Event>): map<File, nat>
    decreases |events|
  {
    if events == [] then m
    else
      match events[0]
      case OpenDevice(f) => Marks(m[f := n], n, events[1..])
      case KeyPressed(c) => Marks(m, if c == '\0' then n else n + 1, events[1..])
      case Other(_) => Marks(m, n, events[1..])
      case Read(_, _) => Marks(m, n, events[1..])
  }

  /** Where a reading ended. */
  function End(r: Reading): nat {
    if r.seen <= r.total then Resume(r.seen, r.total) + |r.chars| else 0
  }

  /** Where the next reading of `f` goes on: where the last one ended, or where the file was opened. */
  function Position(readings: seq<Reading>, m: map<File, nat>, f: File): nat
    requires f in m
    decreases |readings|
  {
    if readings == [] then m[f]
    else
      var last := readings[|readings| - 1];
      if last.file == f then End(last) else Position(readings[..|readings| - 1], m, f)
  }

  /** Every reading of a file went on where the one before it ended, the first where the file was opened. */
  ghost predicate Tracked(s: State, m: map<File, nat>) {
    && m.Keys == s.users.Keys
    && (forall f :: f in m ==> f in s.seen && s.seen[f] == Position(s.readings, m, f))
    && (forall i :: 0 <= i < |s.readings| ==> ReadOn(s.readings, m, i))
  }

  ghost predicate ReadOn(readings: seq<Reading>, m: map<File, nat>, i: nat)
    requires i < |readings|
  {
    readings[i].file in m && readings[i].seen == Position(readings[..i], m, readings[i].file)
  }

  /** A read returns something exactly when the number of characters not read is not a multiple of 128, and then this many. */
  function Count(outstanding: nat, len: nat): nat {
    if len < outstanding % 128 then len else outstanding % 128
  }

  /** A read that returns: by whom, from which file, after how many characters, and how many it returned. */
  datatype Return = Return(reader: Pid, file: File, total: nat, count: nat)

  function ReturnOf(s: State, e: Event): seq<Return>
    requires Shaped(s) && Enabled(s, e)
  {
    if e.Read? && (|s.hist| - s.seen[e.f]) % 128 != 0 then
      [Return(s.sched.curr, e.f, |s.hist|, Count(|s.hist| - s.seen[e.f], e.len))]
    else []
  }

  /** A new reading `r` is the one that returned. */
  ghost predicate Returned(r: Reading, ret: Return) {
    r.reader == ret.reader && r.file == ret.file && r.total == ret.total && |r.chars| == ret.count
  }

  /** The open file starts at the device's position: whoever reads it at once goes to sleep, whatever was typed before. */
  lemma {:induction false} OpenThenRead(s: State, f: File, len: nat)
    requires Inv(s) && Enabled(s, OpenDevice(f))
    ensures var s1 := Step(s, OpenDevice(f));
            Enabled(s1, Read(f, len)) &&
            var s2 := Step(s1, Read(f, len));
            s.sched.curr in Waiting(s2.sched, PS2) && s2.readings == s.readings && s2.hist == s.hist
  {
    hide Scheduler.Inv, Faithful, NoLostWakeup;
    InvSynced(s);
    var s1 := Step(s, OpenDevice(f));
    assert s1.users[f] == s1.pos && Shaped(s1);
  }

  /** One step, told from the event: what was typed, and whether and how much a read returned. */
  lemma {:induction false} StepTells(s: State, e: Event)
    requires Inv(s) && Enabled(s, e)
    ensures Shaped(s) && Step(s, e).hist == s.hist + Typed([e])
    ensures var rs, rs', ret := s.readings, Step(s, e).readings, ReturnOf(s, e);
            rs <= rs' && |ret| <= 1 && |rs'| == |rs| + |ret| && (ret != [] ==> Returned(rs'[|rs|], ret[0]) && rs'[|rs|].seen == s.seen[e.f])
    ensures forall f :: f in s.seen && f in s.users && !(ReturnOf(s, e) != [] && e.f == f) ==>
              f in Step(s, e).seen && Step(s, e).seen[f] == s.seen[f]
    ensures ReturnOf(s, e) != [] ==> e.f in Step(s, e).seen && Step(s, e).seen[e.f] == End(Step(s, e).readings[|s.readings|])
  {
    hide Scheduler.Inv, Faithful, NoLostWakeup, Resume, Slice, Scheduler.Step, Holds;
    InvSynced(s);
    assert [e][1..] == [] && Typed([]) == [];
    match e
    case Other(_) =>
    case OpenDevice(_) =>
    case KeyPressed(_) =>
    case Read(f, len) =>
      OutstandingIsAvail(s, f);
  }

  lemma {:induction false} OutstandingIsAvail(s: State, f: File)
    requires Synced(s) && f in s.users
    ensures f in s.seen && s.seen[f] <= |s.hist| && Avail(s.users[f], s.pos) == (|s.hist| - s.seen[f]) % 128
    ensures s.users[f] == s.pos <==> (|s.hist| - s.seen[f]) % 128 == 0
  {
    Residues(s.seen[f], |s.hist|);
  }

  lemma {:induction false} PositionSnoc(readings: seq<Reading>, r: Reading, m: map<File, nat>, f: File)
    requires f in m
    ensures Position(readings + [r], m, f) == if r.file == f then End(r) else Position(readings, m, f)
  {
    assert (readings + [r])[..|readings + [r]| - 1] == readings;
  }

  /** A file opened now has no readings yet. */
  lemma {:induction false} PositionMarked(readings: seq<Reading>, m: map<File, nat>, f: File, n: nat, g: File)
    requires g == f || g in m
    requires forall i :: 0 <= i < |readings| ==> readings[i].file != f
    ensures Position(readings, m[f := n], g) == if g == f then n else Position(readings, m, g)
    decreases |readings|
  {
    if readings != [] {
      PositionMarked(readings[..|readings| - 1], m, f, n, g);
    }
  }

  /** The marks after one event. */
  function Marked(m: map<File, nat>, n: nat, e: Event): map<File, nat> {
    if e.OpenDevice? then m[e.f := n] else m
  }

  lemma {:induction false} OpenTracked(s: State, f: File, m: map<File, nat>)
    requires Inv(s) && Shaped(s) && Enabled(s, OpenDevice(f)) && Tracked(s, m)
    ensures Tracked(Open(s, f), m[f := |s.hist|])
  {
    hide Inv, Position, End;
    var s', m', n := Open(s, f), m[f := |s.hist|], |s.hist|;
    assert f !in m.Keys;
    forall i | 0 <= i < |s.readings|
      ensures s.readings[i].file != f
    {
      assert ReadOn(s.readings, m, i);
    }
    forall g | g in m'
      ensures g in s'.seen && s'.seen[g] == Position(s'.readings, m', g)
    {
      PositionMarked(s.readings, m, f, n, g);
    }
    forall i | 0 <= i < |s.readings|
      ensures ReadOn(s.readings, m', i)
    {
      assert ReadOn(s.readings, m, i);
      assert forall j :: 0 <= j < i ==> s.readings[..i][j] == s.readings[j];
      PositionMarked(s.readings[..i], m, f, n, s.readings[i].file);
    }
  }

  lemma {:induction false} ReadTracked(s: State, s': State, m: map<File, nat>, f: File)
    requires Tracked(s, m) && s'.users.Keys == s.users.Keys && f in s.users
    requires s.readings <= s'.readings && |s'.readings| == |s.readings| + 1
    requires var r := s'.readings[|s.readings|]; r.file == f && r.seen == s.seen[f] && f in s'.seen && s'.seen[f] == End(r)
    requires forall g :: g in s.seen && g in s.users && g != f ==> g in s'.seen && s'.seen[g] == s.seen[g]
    ensures Tracked(s', m)
  {
    hide Position, End;
    var r := s'.readings[|s.readings|];
    assert s'.readings == s.readings + [r];
    forall g | g in m
      ensures g in s'.seen && s'.seen[g] == Position(s'.readings, m, g)
    {
      PositionSnoc(s.readings, r, m, g);
    }
    forall i | 0 <= i < |s'.readings|
      ensures ReadOn(s'.readings, m, i)
    {
      if i < |s.readings| {
        assert ReadOn(s.readings, m, i) && s'.readings[..i] == s.readings[..i];
      } else {
        assert s'.readings[..i] == s.readings;
      }
    }
  }

  lemma {:induction false} StepTracked(s: State, e: Event, m: map<File, nat>)
    requires Inv(s) && Enabled(s, e) && Tracked(s, m)
    ensures Tracked(Step(s, e), Marked(m, |s.hist|, e))
  {
    hide Inv, Position, End, Resume, Scheduler.Step;
    InvSynced(s);
    StepTells(s, e);
    match e
    case Other(_) => SameTracked(s, Step(s, e), m);
    case OpenDevice(f) => OpenTracked(s, f, m);
    case KeyPressed(_) => SameTracked(s, Step(s, e), m);
    case Read(f, len) =>
      if ReturnOf(s, e) != [] {
        ReadTracked(s, Step(s, e), m, f);
      } else {
        SameTracked(s, Step(s, e), m);
      }
  }

  lemma {:induction false} SameTracked(s: State, s': State, m: map<File, nat>)
    requires Tracked(s, m) && s'.users.Keys == s.users.Keys && s'.readings == s.readings
    requires forall f :: f in s.users && f in s.seen ==> f in s'.seen && s'.seen[f] == s.seen[f]
    ensures Tracked(s', m)
  {
    hide Position;
    assert forall i :: 0 <= i < |s.readings| ==> ReadOn(s.readings, m, i);
  }

  lemma {:induction false} MarksFirst(m: map<File, nat>, n: nat, events: seq<Event>)
    requires events != []
    ensures Marks(m, n, events) == Marks(Marked(m, n, events[0]), n + |Typed([events[0]])|, events[1..])
    ensures Typed(events) == Typed([events[0]]) + Typed(events[1..])
  {
    assert [events[0]][1..] == [] && Typed([]) == [];
  }

  /**
    Over every run, told from the events: the characters produced are those typed, and every reading of a file went on
    where the one before it ended, the first one where the device was when the file was opened.
   */
  lemma {:induction false} RunTracked(s: State, events: seq<Event>, m: map<File, nat>)
    requires Inv(s) && EnabledRun(s, events) && Tracked(s, m)
    ensures Run(s, events).hist == s.hist + Typed(events)
    ensures Tracked(Run(s, events), Marks(m, |s.hist|, events))
    decreases |events|
  {
    hide Inv, Step, Enabled, Tracked, Typed, Marks, Marked;
    if events == [] {
      NothingTyped(m, |s.hist|);
      assert s.hist + [] == s.hist;
    } else {
      var e, rest := events[0], events[1..];
      StepInv(s, e);
      StepTells(s, e);
      StepTracked(s, e, m);
      MarksFirst(m, |s.hist|, events);
      RunTracked(Step(s, e), rest, Marked(m, |s.hist|, e));
      assert s.hist + Typed([e]) + Typed(rest) == s.hist + (Typed([e]) + Typed(rest));
    }
  }

  lemma {:induction false} NothingTyped(m: map<File, nat>, n: nat)
    ensures Typed([]) == [] && Marks(m, n, []) == m
  {
  }

  /** The reads of a run that return, in order. */
  ghost function Returns(s: State, events: seq<Event>): seq<Return>
    requires Inv(s) && EnabledRun(s, events)
    decreases |events|
  {
    if events == [] then []
    else
      InvSynced(s);
      StepInv(s, events[0]);
      ReturnOf(s, events[0]) + Returns(Step(s, events[0]), events[1..])
  }

  /** Exactly those reads return that find characters, each with as many as were asked for or outstanding. */
  lemma {:induction false} RunReturns(s: State, events: seq<Event>)
    requires Inv(s) && EnabledRun(s, events)
    ensures var rs, rets := Run(s, events).readings, Returns(s, events);
            && s.readings <= rs && |rs| == |s.readings| + |rets|
            && forall i :: 0 <= i < |rets| ==> Returned(rs[|s.readings| + i], rets[i])
    decreases |events|
  {
    hide Inv, Step, Enabled, ReturnOf, Returned;
    if events != [] {
      var e, s1 := events[0], Step(s, events[0]);
      InvSynced(s);
      StepInv(s, e);
      StepTells(s, e);
      RunReturns(s1, events[1..]);
      var rs, rets, now := Run(s, events).readings, Returns(s, events), ReturnOf(s, e);
      assert rets == now + Returns(s1, events[1..]);
      forall i | 0 <= i < |rets|
        ensures Returned(rs[|s.readings| + i], rets[i])
      {
        if i < |now| {
          assert rs[|s.readings| + i] == s1.readings[|s.readings| + i];
        } else {
          assert rs[|s.readings| + i] == rs[|s1.readings| + (i - |now|)];
          assert rets[i] == Returns(s1, events[1..])[i - |now|];
        }
      }
    }
  }

  /** From boot: the whole story of every file, told from the events. */
  lemma {:induction false} EveryReadInSequence(ring: seq<char>, events: seq<Event>)
    requires |ring| == 128 && EnabledRun(Booted(ring), events)
    ensures var s := Run(Booted(ring), events);
            && s.hist == Typed(events) && Tracked(s, Marks(map[], 0, events)) && Faithful(s)
  {
    hide EnabledRun, Run, Typed, Marks;
    BootedInv(ring);
    RunInv(Booted(ring), events);
    RunTracked(Booted(ring), events, map[]);
    assert [] + Typed(events) == Typed(events);
  }

  /** What an event is to the scheduler: a read that finds nothing blocks, one that returns leaves its critical section. */
  function SchedEvent(s: State, e: Event): seq<Scheduler.Event>
    requires Shaped(s) && Enabled(s, e)
  {
    match e
    case Other(f) => [f]
    case OpenDevice(_) => [Section]
    case KeyPressed(c) => if c == '\0' then [] else [UnblockAll(PS2)]
    case Read(f, _) => if ReturnOf(s, e) == [] then [BlockOn(PS2)] else [Section]
  }

  lemma {:induction false} StepProjects(s: State, e: Event, rest: seq<Scheduler.Event>)
    requires Inv(s) && Enabled(s, e)
    ensures Shaped(s)
    ensures Scheduler.Run(s.sched, SchedEvent(s, e) + rest) == Scheduler.Run(Step(s, e).sched, rest)
    ensures Scheduler.EnabledRun(Step(s, e).sched, rest) ==> Scheduler.EnabledRun(s.sched, SchedEvent(s, e) + rest)
  {
    hide Scheduler.Inv, Faithful, NoLostWakeup, Resume, Slice, Holds, Scheduler.Run, Scheduler.EnabledRun;
    InvSynced(s);
    if SchedEvent(s, e) == [] {
      assert [] + rest == rest;
    } else {
      RunCons(s.sched, SchedEvent(s, e)[0], rest);
      assert SchedEvent(s, e) == [SchedEvent(s, e)[0]];
    }
    if e.Read? {
      OutstandingIsAvail(s, e.f);
    }
  }

  ghost function SchedEvents(s: State, events: seq<Event>): seq<Scheduler.Event>
    requires Inv(s) && EnabledRun(s, events)
    decreases |events|
  {
    if events == [] then []
    else
      InvSynced(s);
      StepInv(s, events[0]);
      SchedEvent(s, events[0]) + SchedEvents(Step(s, events[0]), events[1..])
  }

  /** To the scheduler a run of the driver is one of its own, so all that holds of those holds here. */
  lemma {:induction false} Projects(s: State, events: seq<Event>)
    requires Inv(s) && EnabledRun(s, events)
    ensures Scheduler.EnabledRun(s.sched, SchedEvents(s, events))
    ensures Run(s, events).sched == Scheduler.Run(s.sched, SchedEvents(s, events))
    decreases |events|
  {
    hide Inv, Step, Enabled, SchedEvent;
    if events != [] {
      StepInv(s, events[0]);
      Projects(Step(s, events[0]), events[1..]);
      StepProjects(s, events[0], SchedEvents(Step(s, events[0]), events[1..]));
    }
  }

  // ------------------------------------------------------------------
  // A reader that sleeps on 128 unread characters
  // ------------------------------------------------------------------

  lemma {:induction false} RunAppend(s: State, a: seq<Event>, b: seq<Event>)
    requires EnabledRun(s, a) && EnabledRun(Run(s, a), b)
    ensures EnabledRun(s, a + b) && Run(s, a + b) == Run(Run(s, a), b)
    decreases |a|
  {
    hide Enabled, Step;
    if a == [] {
      assert [] + b == b;
    } else {
      assert (a + b)[1..] == a[1..] + b && (a + b)[0] == a[0];
      RunAppend(Step(s, a[0]), a[1..], b);
    }
  }

  /** `n` keys. */
  function Keys(n: nat): seq<Event>
    decreases n
  {
    if n == 0 then [] else [KeyPressed('a')] + Keys(n - 1)
  }

  /** Keys move no reader and, with nobody asleep, wake nobody. */
  lemma {:induction false} KeysRun(s: State, n: nat)
    requires Inv(s) && CanInterrupt(s.sched)
    ensures EnabledRun(s, Keys(n))
    ensures var t := Run(s, Keys(n));
            && Inv(t) && t.users == s.users && t.seen == s.seen && |t.hist| == |s.hist| + n
            && t.sched.curr == s.sched.curr && t.sched.yielding == s.sched.yielding && t.inRead == s.inRead
    decreases n
  {
    hide Inv;
    if n > 0 {
      var e := KeyPressed('a');
      StepInv(s, e);
      InvSynced(s);
      KeysRun(Step(s, e), n - 1);
      assert Keys(n)[1..] == Keys(n - 1);
    }
  }

  lemma {:induction false} InvSynced(s: State)
    requires Inv(s)
    ensures Synced(s) && Shaped(s) && Scheduler.Inv(s.sched)
  {
  }

  lemma {:induction false} Opens(ring: seq<char>)
    requires |ring| == 128
    ensures var events := [Other(CreateProcess(1)), Other(RunMain), Other(YieldTrap), OpenDevice(7)];
            EnabledRun(Booted(ring), events) &&
            var s := Run(Booted(ring), events);
            && s.sched.curr == 1 && !s.sched.yielding && 1 in s.sched.unmasked && s.inRead == map[]
            && s.hist == [] && 7 in s.users && 7 in s.seen && s.seen[7] == 0
  {
    var s0 := Booted(ring);
    var e1, e2, e3, e4 := Other(CreateProcess(1)), Other(RunMain), Other(YieldTrap), OpenDevice(7);
    var s1 := Step(s0, e1);
    var s2 := Step(s1, e2);
    var s3 := Step(s2, e3);
    var s4 := Step(s3, e4);
    assert EnabledRun(s4, []) && Run(s4, []) == s4;
    assert [e4][1..] == [] && EnabledRun(s3, [e4]) && Run(s3, [e4]) == s4;
    assert [e3, e4][1..] == [e4] && EnabledRun(s2, [e3, e4]) && Run(s2, [e3, e4]) == s4;
    assert [e2, e3, e4][1..] == [e3, e4] && EnabledRun(s1, [e2, e3, e4]) && Run(s1, [e2, e3, e4]) == s4;
    assert [e1, e2, e3, e4][1..] == [e2, e3, e4];
  }

  lemma {:induction false} ReadSleeps(s: State, f: File, len: nat)
    requires Shaped(s) && Enabled(s, Read(f, len)) && s.users[f] == s.pos
    ensures EnabledRun(s, [Read(f, len)])
    ensures var s' := Run(s, [Read(f, len)]); s.sched.curr in Waiting(s'.sched, PS2) && s'.seen == s.seen && s'.hist == s.hist
  {
    hide Deliver;
    var e := Read(f, len);
    assert [e][1..] == [] && Run(s, [e]) == Step(s, e);
    assert Waiting(Step(s, e).sched, PS2) == Waiting(s.sched, PS2) + [s.sched.curr];
  }

  /** Open, 128 keys, read: the reader is put to sleep although it has read none of the 128 characters. */
  lemma {:induction false} SleepsOnUnread(ring: seq<char>)
    requires |ring| == 128
    ensures var events := [Other(CreateProcess(1)), Other(RunMain), Other(YieldTrap), OpenDevice(7)] + Keys(128) + [Read(7, 1)];
            EnabledRun(Booted(ring), events) &&
            var s := Run(Booted(ring), events);
            1 in Waiting(s.sched, PS2) && 7 in s.seen && s.seen[7] == 0 && |s.hist| == 128
  {
    hide Keys, Inv, EnabledRun, Run, Step, Booted, Foreign;
    var open := [Other(CreateProcess(1)), Other(RunMain), Other(YieldTrap), OpenDevice(7)];
    var s0 := Booted(ring);
    BootedInv(ring);
    Opens(ring);
    RunInv(s0, open);
    var s4 := Run(s0, open);
    KeysRun(s4, 128);
    RunAppend(s0, open, Keys(128));
    var s5 := Run(s4, Keys(128));
    LapIsEmpty(s5, 7);
    ReadSleeps(s5, 7, 1);
    RunAppend(s0, open + Keys(128), [Read(7, 1)]);
  }

  /** With exactly 128 characters outstanding the positions are equal. */
  lemma {:induction false} LapIsEmpty(s: State, f: File)
    requires Inv(s) && f in s.users && f in s.seen && s.seen[f] + 128 == |s.hist|
    ensures Shaped(s) && s.users[f] == s.pos
  {
    hide Scheduler.Inv, NoLostWakeup, Faithful;
    assert |s.hist| % 128 == s.seen[f] % 128;
  }

  // ------------------------------------------------------------------
  // A key in the tail of a trap
  // ------------------------------------------------------------------

  lemma {:induction false} RunFirst(s: State, e: Event, rest: seq<Event>)
    requires Enabled(s, e) && EnabledRun(Step(s, e), rest)
    ensures EnabledRun(s, [e] + rest) && Run(s, [e] + rest) == Run(Step(s, e), rest)
  {
    assert ([e] + rest)[1..] == rest;
  }

  /** Process 1 has opened file 7, found nothing to read and yielded to process 2, which runs for the first time. */
  function FirstSwitch(ring: seq<char>): State {
    State(Sched(2, false, [], map[PS2 := [1]], {1, 2}, false, {MAIN, 1}, true),
          ring, 0, map[7 := 0], map[1 := 7], [], map[7 := 0], map[1 := 0], [])
  }

  /** The same just before process 1 reads. */
  function FirstOpened(ring: seq<char>): State {
    State(Sched(1, false, [2], map[], {1, 2}, false, {MAIN, 1}, false), ring, 0, map[7 := 0], map[], [], map[7 := 0], map[], [])
  }

  lemma {:induction false} FirstOpens(ring: seq<char>)
    requires |ring| == 128
    ensures var events := [Other(CreateProcess(1)), Other(CreateProcess(2)), Other(RunMain), Other(YieldTrap), OpenDevice(7)];
            EnabledRun(Booted(ring), events) && Run(Booted(ring), events) == FirstOpened(ring)
  {
    var e1, e2, e3, e4 := Other(CreateProcess(1)), Other(CreateProcess(2)), Other(RunMain), Other(YieldTrap);
    var s0 := Booted(ring);
    var s1 := s0.(sched := Sched(MAIN, false, [1], map[], {1}, false, {MAIN}, false));
    var s2 := s0.(sched := Sched(MAIN, false, [1, 2], map[], {1, 2}, false, {MAIN}, false));
    var s3 := s0.(sched := Sched(MAIN, true, [1, 2], map[], {1, 2}, true, {MAIN}, false));
    var s4 := s0.(sched := Sched(1, false, [2], map[], {1, 2}, false, {MAIN}, true));
    assert Step(s0, e1) == s1 && Step(s1, e2) == s2 && Step(s2, e3) == s3 && Step(s3, e4) == s4;
    assert Open(s4, 7).users == map[7 := 0] && Open(s4, 7).seen == map[7 := 0];
    assert Step(s4, OpenDevice(7)) == FirstOpened(ring);
    RunFirst(s4, OpenDevice(7), []);
    RunFirst(s3, e4, [OpenDevice(7)]);
    RunFirst(s2, e3, [e4, OpenDevice(7)]);
    RunFirst(s1, e2, [e3, e4, OpenDevice(7)]);
    RunFirst(s0, e1, [e2, e3, e4, OpenDevice(7)]);
  }

  lemma {:induction false} FirstReads(ring: seq<char>)
    requires |ring| == 128
    ensures var events := [Read(7, 1), Other(YieldTrap)];
            EnabledRun(FirstOpened(ring), events) && Run(FirstOpened(ring), events) == FirstSwitch(ring)
  {
    var s0 := FirstOpened(ring);
    var s1 := FirstSwitch(ring).(sched := Sched(1, true, [2], map[PS2 := [1]], {1, 2}, true, {MAIN, 1}, false));
    assert Waiting(s0.sched, PS2) + [1] == [1];
    assert FallAsleep(s0, 7).sched.waits == s1.sched.waits && FallAsleep(s0, 7).inRead == s1.inRead;
    assert FallAsleep(s0, 7).behind == s1.behind;
    assert Step(s0, Read(7, 1)) == s1 && Step(s1, Other(YieldTrap)) == FirstSwitch(ring);
    RunFirst(s1, Other(YieldTrap), []);
    RunFirst(s0, Read(7, 1), [Other(YieldTrap)]);
  }

  /**
    The kernel's first switch between processes: process 2 has its interrupt flag off, but a key that comes before the
    trap returns to it is taken there, and wakes process 1.
   */
  lemma {:induction false} KeyInTail(ring: seq<char>)
    requires |ring| == 128
    ensures var events := [Other(CreateProcess(1)), Other(CreateProcess(2)), Other(RunMain), Other(YieldTrap), OpenDevice(7)]
                          + [Read(7, 1), Other(YieldTrap)] + [KeyPressed('a')];
            EnabledRun(Booted(ring), events) &&
            var s := Run(Booted(ring), events);
            s.sched.curr == 2 && 2 !in s.sched.unmasked && s.sched.ready == [1] && Waiting(s.sched, PS2) == [] && s.hist == ['a']
  {
    hide EnabledRun, Run, Step, Enabled;
    var a := [Other(CreateProcess(1)), Other(CreateProcess(2)), Other(RunMain), Other(YieldTrap), OpenDevice(7)];
    var b, c := [Read(7, 1), Other(YieldTrap)], [KeyPressed('a')];
    FirstOpens(ring);
    FirstReads(ring);
    KeyWakes(ring);
    RunAppend(Booted(ring), a, b);
    RunAppend(Booted(ring), a + b, c);
  }

  lemma {:induction false} KeyWakes(ring: seq<char>)
    requires |ring| == 128
    ensures EnabledRun(FirstSwitch(ring), [KeyPressed('a')])
    ensures var s := Run(FirstSwitch(ring), [KeyPressed('a')]);
            s.sched.curr == 2 && 2 !in s.sched.unmasked && s.sched.ready == [1] && Waiting(s.sched, PS2) == [] && s.hist == ['a']
  {
    RunFirst(FirstSwitch(ring), KeyPressed('a'), []);
    assert Key(FirstSwitch(ring), 'a').sched.ready == [] + [1] == [1];
  }
}
