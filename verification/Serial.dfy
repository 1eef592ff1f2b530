/**
  The output side of src/drivers/serial/x86.c: a ring of 1024 with one slot kept free, filled by
  writers and drained by the transmit interrupt.
 */
module Serial {

  /** `BUFF_POS`, for positions from -1 on. */
  function BuffPos(pos: int): nat
    requires -1 <= pos
  {
    (if pos == -1 then 1023 else pos) % 1024
  }

  /** What clients and the wire saw: characters accepted, characters emitted, and those still queued. */
  datatype Port = Port(queue: seq<char>, accepted: seq<char>, emitted: seq<char>)

  /** `producer_add_char`: the character is dropped when 1023 are queued. */
  function Add(p: Port, c: char): Port {
    if |p.queue| == 1023 then p else Port(p.queue + [c], p.accepted + [c], p.emitted)
  }

  /** `consumer_write_next`. */
  function Emit(p: Port): Port {
    if p.queue == [] then p else Port(p.queue[1..], p.accepted, p.emitted + [p.queue[0]])
  }

  datatype Event = Write(c: char, transmitEmpty: bool) | Interrupt(transmitEmpty: bool)

  function Step(p: Port, e: Event): Port {
    match e
    case Write(c, transmitEmpty) => if transmitEmpty then Emit(Add(p, c)) else Add(p, c)
    case Interrupt(transmitEmpty) => if transmitEmpty then Emit(p) else p
  }

  function Run(p: Port, events: seq<Event>): Port
    decreases |events|
  {
    if events == [] then p else Run(Step(p, events[0]), events[1..])
  }

  ghost predicate InOrder(p: Port) {
    |p.queue| <= 1023 && p.accepted == p.emitted + p.queue
  }

  /** Over every run the port emits the accepted characters in order, none twice, none out of turn. */
  lemma {:induction false} RunInOrder(p: Port, events: seq<Event>)
    requires InOrder(p)
    ensures InOrder(Run(p, events)) && Run(p, events).emitted <= Run(p, events).accepted
    ensures p.accepted <= Run(p, events).accepted
    decreases |events|
  {
    if events != [] {
      StepInOrder(p, events[0]);
      RunInOrder(Step(p, events[0]), events[1..]);
    }
  }

  lemma {:induction false} StepInOrder(p: Port, e: Event)
    requires InOrder(p)
    ensures InOrder(Step(p, e)) && p.accepted <= Step(p, e).accepted
  {
    AddInOrder(p, if e.Write? then e.c else ' ');
    EmitInOrder(p);
    if e.Write? {
      EmitInOrder(Add(p, e.c));
    }
  }

  lemma {:induction false} AddInOrder(p: Port, c: char)
    requires InOrder(p)
    ensures InOrder(Add(p, c)) && p.accepted <= Add(p, c).accepted
  {
    assert p.emitted + p.queue + [c] == p.emitted + (p.queue + [c]);
  }

  lemma {:induction false} EmitInOrder(p: Port)
    requires InOrder(p)
    ensures InOrder(Emit(p)) && Emit(p).accepted == p.accepted
  {
    if p.queue != [] {
      assert p.queue == [p.queue[0]] + p.queue[1..];
      assert p.emitted + p.queue == p.emitted + [p.queue[0]] + p.queue[1..];
    }
  }

  // ------------------------------------------------------------------
  // What goes out, told from the events alone
  // ------------------------------------------------------------------

  /** The characters of `events` that are not dropped, when `n` are queued before: a write is dropped exactly at 1023. */
  function Kept(n: nat, events: seq<Event>): seq<char>
    decreases |events|
  {
    if events == [] then []
    else (if events[0].Write? && n < 1023 then [events[0].c] else []) + Kept(Queued(n, events[0]), events[1..])
  }

  /** How many characters go out: one for every event that finds the transmitter empty and a character to send. */
  function Sent(n: nat, events: seq<Event>): nat
    decreases |events|
  {
    if events == [] then 0 else (if Sends(n, events[0]) then 1 else 0) + Sent(Queued(n, events[0]), events[1..])
  }

  /** An event sends a character: the transmitter is empty and one was queued before or is written now. */
  predicate Sends(n: nat, e: Event) {
    e.transmitEmpty && (0 < n || e.Write?)
  }

  /** How many are queued after an event. */
  function Queued(n: nat, e: Event): nat {
    (if e.Write? && n < 1023 then n + 1 else n) - if Sends(n, e) then 1 else 0
  }

  lemma {:induction false} StepExact(p: Port, e: Event)
    requires InOrder(p)
    ensures var p', n := Step(p, e), |p.queue|;
            && |p'.queue| == Queued(n, e)
            && p'.accepted == p.accepted + (if e.Write? && n < 1023 then [e.c] else [])
            && |p'.emitted| == |p.emitted| + (if Sends(n, e) then 1 else 0)
  {
  }

  /**
    Over every run: exactly the characters written with fewer than 1023 queued are accepted, and what has gone out is
    as many of the accepted ones, from the first on, as there were events with the transmitter empty and something to send.
   */
  lemma {:induction false} RunExact(p: Port, events: seq<Event>)
    requires InOrder(p)
    ensures var p', n := Run(p, events), |p.queue|;
            && p'.accepted == p.accepted + Kept(n, events)
            && |p'.emitted| == |p.emitted| + Sent(n, events) && p'.emitted <= p'.accepted
    decreases |events|
  {
    hide Step, Queued, Sends;
    if events != [] {
      var e, p1 := events[0], Step(p, events[0]);
      StepExact(p, e);
      StepInOrder(p, e);
      RunExact(p1, events[1..]);
      var now := if e.Write? && |p.queue| < 1023 then [e.c] else [];
      assert p.accepted + now + Kept(|p1.queue|, events[1..]) == p.accepted + (now + Kept(|p1.queue|, events[1..]));
    }
  }

  /** As many transmit interrupts as characters are queued send them all. */
  lemma {:induction false} Drains(p: Port, events: seq<Event>)
    requires InOrder(p) && |events| == |p.queue| && forall i :: 0 <= i < |events| ==> events[i] == Interrupt(true)
    ensures Run(p, events).queue == [] && Run(p, events).emitted == p.accepted
    decreases |events|
  {
    if events != [] {
      StepInOrder(p, events[0]);
      Drains(Step(p, events[0]), events[1..]);
    }
  }

  /** The characters between the consumer's and the producer's position. */
  ghost predicate Holds(buff: seq<char>, consumer: nat, producer: nat, queue: seq<char>) {
    && |buff| == 1024 && consumer < 1024 && |queue| <= 1023
    && producer == (consumer + |queue|) % 1024
    && forall i :: 0 <= i < |queue| ==> queue[i] == buff[(consumer + i) % 1024]
  }

  lemma {:induction false} AddHolds(buff: seq<char>, consumer: nat, producer: nat, queue: seq<char>, c: char)
    requires Holds(buff, consumer, producer, queue)
    ensures producer == BuffPos(consumer - 1) <==> |queue| == 1023
    ensures |queue| < 1023 ==> Holds(buff[producer := c], consumer, BuffPos(producer + 1), queue + [c])
  {
    if |queue| < 1023 {
      forall i | 0 <= i < |queue|
        ensures (queue + [c])[i] == buff[producer := c][(consumer + i) % 1024]
      {
        assert (consumer + i) % 1024 != producer;
      }
    }
  }

  lemma {:induction false} EmitHolds(buff: seq<char>, consumer: nat, producer: nat, queue: seq<char>)
    requires Holds(buff, consumer, producer, queue)
    ensures consumer == producer <==> queue == []
    ensures queue != [] ==> buff[consumer] == queue[0] && Holds(buff, BuffPos(consumer + 1), producer, queue[1..])
  {
    if queue != [] {
      assert queue[0] == buff[(consumer + 0) % 1024];
      forall i | 0 <= i < |queue| - 1
        ensures queue[1..][i] == buff[(BuffPos(consumer + 1) + i) % 1024]
      {
        assert queue[i + 1] == buff[(consumer + (i + 1)) % 1024];
        assert (BuffPos(consumer + 1) + i) % 1024 == (consumer + (i + 1)) % 1024;
      }
    }
  }

  class SerialDevice {
    const outputBuff: array<char>
    var producerPos: nat
    var consumerPos: nat
    var wire: seq<char>                  // characters written to the data register
    ghost var port: Port

    ghost predicate Valid()
      reads this, outputBuff
    {
      Holds(outputBuff[..], consumerPos, producerPos, port.queue) && wire == port.emitted
    }

    constructor ()
      ensures Valid() && fresh(outputBuff) && port == Port([], [], [])
    {
      outputBuff := new char[1024];
      producerPos, consumerPos, wire, port := 0, 0, [], Port([], [], []);
    }

    /** `consumer_write_next`. */
    method ConsumerWriteNext()
      requires Valid()
      modifies this
      ensures Valid() && port == Emit(old(port))
    {
      hide Holds;
      EmitHolds(outputBuff[..], consumerPos, producerPos, port.queue);
      if consumerPos == producerPos {
        return;
      }
      InBuffer();
      var next := outputBuff[consumerPos];
      consumerPos := BuffPos(consumerPos + 1);
      wire := wire + [next];
      port := Emit(port);
    }

    /** `producer_add_char`. */
    method ProducerAddChar(c: char)
      requires Valid()
      modifies this, outputBuff
      ensures Valid() && port == Add(old(port), c)
    {
      hide Holds;
      InBuffer();
      AddHolds(outputBuff[..], consumerPos, producerPos, port.queue, c);
      if producerPos == BuffPos(consumerPos - 1) {
        return;
      }
      ghost var buff := outputBuff[..];
      outputBuff[producerPos] := c;
      assert outputBuff[..] == buff[producerPos := c];
      producerPos := BuffPos(producerPos + 1);
      port := Add(port, c);
    }

    lemma {:induction false} InBuffer()
      requires Valid()
      ensures outputBuff.Length == 1024 && consumerPos < 1024 && producerPos < 1024 && |port.queue| <= 1023
    {
    }

    /** `x86_write`: `transmitEmpty` is what the line status register says. */
    method Write(c: char, transmitEmpty: bool)
      requires Valid()
      modifies this, outputBuff
      ensures Valid() && port == Step(old(port), Event.Write(c, transmitEmpty))
      ensures wire == old(wire) + if transmitEmpty then [(old(port).queue + [c])[0]] else []
    {
      ProducerAddChar(c);
      if transmitEmpty {
        ConsumerWriteNext();
      }
    }

    /** `x86_serial_isr`. */
    method Isr(transmitEmpty: bool)
      requires Valid()
      modifies this
      ensures Valid() && port == Step(old(port), Interrupt(transmitEmpty))
    {
      if transmitEmpty {
        ConsumerWriteNext();
      }
    }

    /** Any run of writes and transmit interrupts: what is on the wire, told from the events. */
    method Execute(events: seq<Event>)
      requires Valid() && InOrder(port)
      modifies this, outputBuff
      ensures Valid() && port == Run(old(port), events)
      ensures |wire| == |old(wire)| + Sent(|old(port.queue)|, events)
      ensures wire <= old(port.accepted) + Kept(|old(port.queue)|, events)
    {
      hide Step, Holds;
      assert events[0..] == events;
      for i := 0 to |events|
        invariant Valid() && Run(port, events[i..]) == Run(old(port), events)
      {
        assert events[i..][0] == events[i] && events[i..][1..] == events[i + 1..];
        match events[i]
        case Write(c, transmitEmpty) => Write(c, transmitEmpty);
        case Interrupt(transmitEmpty) => Isr(transmitEmpty);
      }
      RunExact(old(port), events);
    }
  }
}
