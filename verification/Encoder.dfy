/** The encoder event queue of quantum/encoder.c, a ring with wrapping counters, and the per-encoder state
    of the quadrature driver, which feeds it. */
module Encoder {
  import opened QuadratureModel
  import opened Ring

  datatype Event = Event(index: nat, clockwise: bool)

  /** `(i + 1) % n` */
  method Increment(i: nat, n: nat) returns (r: nat)
    requires i < n
    ensures r == if i + 1 == n then 0 else i + 1
  {
    r := (i + 1) % n;
  }

  /** `encoder_events_t`. */
  class EncoderQueue {
    const queue: array<Event>
    var head: nat
    var tail: nat
    var enqueued: nat
    var dequeued: nat

    ghost predicate Valid()
      reads this
    {
      && 2 <= queue.Length <= 256
      && head < queue.Length && tail < queue.Length && enqueued < 256 && dequeued < 256
      && enqueued == (dequeued + Len()) % 256
    }

    /** `(head - tail) mod N` */
    ghost function Len(): int
      reads this
    {
      if tail <= head then head - tail else head + queue.Length - tail
    }

    /** The queued events, oldest first. */
    ghost function Contents(): (s: seq<Event>)
      requires Valid()
      reads this, queue
      ensures |s| == Len()
    {
      Unroll(queue[..], tail, Len())
    }

    constructor (size: nat)
      requires 2 <= size <= 256
      ensures Valid() && Contents() == [] && fresh(queue) && queue.Length == size
    {
      queue := new Event[size](_ => Event(0, false));
      head, tail, enqueued, dequeued := 0, 0, 0, 0;
    }

    method Full() returns (full: bool)
      requires Valid()
      ensures full <==> |Contents()| == queue.Length - 1
    {
      var next := Increment(head, queue.Length);
      full := tail == next;
    }

    method Empty() returns (empty: bool)
      requires Valid()
      ensures empty <==> Contents() == []
    {
      empty := head == tail;
    }

    /** `encoder_queue_event_advanced`; the index has seven bits. */
    method QueueEvent(index: nat, clockwise: bool) returns (ok: bool)
      requires Valid()
      modifies this`head, this`enqueued, queue
      ensures Valid() && (ok <==> |old(Contents())| < queue.Length - 1)
      ensures Contents() == old(Contents()) + (if ok then [Event(index % 128, clockwise)] else [])
    {
      var full := Full();
      if full {
        return false;
      }
      Append(Event(index % 128, clockwise));
      return true;
    }

    method Append(event: Event)
      requires Valid() && |Contents()| < queue.Length - 1
      modifies this`head, this`enqueued, queue
      ensures Valid() && Contents() == old(Contents()) + [event]
    {
      ghost var ring, n := queue[..], Len();
      assert Slot(queue.Length, tail, n) == head;
      hide Unroll, Slot;
      UnrollAppend(ring, tail, n, event);
      queue[head] := event;
      assert queue[..] == ring[head := event];
      head := Increment(head, queue.Length);
      enqueued := (enqueued + 1) % 256;
      assert Len() == n + 1;
    }

    /** `encoder_dequeue_event_advanced`. */
    method DequeueEvent() returns (ok: bool, index: nat, clockwise: bool)
      requires Valid()
      modifies this`tail, this`dequeued
      ensures Valid() && (ok <==> old(Contents()) != [])
      ensures ok ==> old(Contents()) == [Event(index, clockwise)] + Contents()
      ensures !ok ==> Contents() == []
    {
      var empty := Empty();
      if empty {
        return false, 0, false;
      }
      ghost var ring, n := queue[..], Len();
      hide Unroll, Slot;
      UnrollRest(ring, tail, n);
      var event := queue[tail];
      tail := Increment(tail, queue.Length);
      dequeued := (dequeued + 1) % 256;
      assert queue[..] == ring && Len() == n - 1;
      return true, event.index, event.clockwise;
    }

    /** `encoder_queue_drain`. */
    method Drain()
      requires Valid()
      modifies this`tail, this`dequeued
      ensures Valid() && Contents() == []
    {
      tail := head;
      dequeued := enqueued;
    }

    /** The loop of `encoder_handle_queue`: everything queued, in order. */
    method HandleQueue() returns (handled: seq<Event>)
      requires Valid()
      modifies this`tail, this`dequeued
      ensures Valid() && Contents() == [] && handled == old(Contents())
    {
      handled := [];
      var ok, index, clockwise := DequeueEvent();
      while ok
        invariant Valid()
        invariant old(Contents()) == handled + (if ok then [Event(index, clockwise)] else []) + Contents()
        invariant !ok ==> Contents() == []
        decreases ok, |Contents()|
      {
        handled := handled + [Event(index, clockwise)];
        ok, index, clockwise := DequeueEvent();
      }
    }
  }

  /** What offering an event to a queue of `capacity` slots leaves in it. */
  function Offered(contents: seq<Event>, capacity: nat, index: nat, clockwise: bool): seq<Event> {
    if |contents| < capacity - 1 then contents + [Event(index % 128, clockwise)] else contents
  }

  /** What the queue holds after a step of one encoder that has or has not turned left or right by a whole step. */
  function Reported(contents: seq<Event>, capacity: nat, index: nat, left: bool, right: bool, flip: bool): seq<Event> {
    var c1 := if left then Offered(contents, capacity, index, flip) else contents;
    if right then Offered(c1, capacity, index, !flip) else c1
  }

  /** The static arrays of the quadrature driver. */
  class QuadratureDriver {
    const resolutions: seq<nat>
    /** `ENCODER_DIRECTION_FLIP` */
    const flip: bool
    const states: array<nat>
    const pulses: array<int>
    const events: EncoderQueue
    /** How many events each encoder has produced, whether or not the queue had room. */
    ghost var ccw: seq<nat>
    ghost var cw: seq<nat>

    ghost predicate Valid()
      reads this, events
    {
      && states.Length == pulses.Length == |resolutions| == |ccw| == |cw|
      && states as object != pulses as object
      && (forall i :: 0 <= i < |resolutions| ==> resolutions[i] > 0)
      && events.Valid()
    }

    ghost function Model(i: nat): State
      requires Valid() && i < |resolutions|
      reads this, states, pulses, events
    {
      State(states[i], pulses[i], ccw[i], cw[i])
    }

    /** The pins are read once, then the driver starts from rest. */
    constructor (resolutions: seq<nat>, flip: bool, pins: seq<Pins>, events: EncoderQueue)
      requires |pins| == |resolutions| && events.Valid()
      requires forall i :: 0 <= i < |resolutions| ==> resolutions[i] > 0
      ensures Valid() && this.resolutions == resolutions && this.flip == flip && this.events == events
      ensures fresh(states) && fresh(pulses)
      ensures forall i :: 0 <= i < |resolutions| ==> Model(i) == Run(resolutions[i], [pins[i]], 0)
    {
      this.resolutions, this.flip, this.events := resolutions, flip, events;
      states := new nat[|resolutions|](i requires 0 <= i < |pins| => pins[i]);
      pulses := new int[|resolutions|](_ => 0);
      ccw := seq(|resolutions|, _ => 0);
      cw := seq(|resolutions|, _ => 0);
    }

    /** `encoder_handle_state_change`. */
    method StateChange(index: nat)
      requires Valid() && index < |resolutions|
      modifies this`ccw, this`cw, pulses, events`head, events`enqueued, events.queue
      ensures Valid() && Model(index) == HandleStateChange(resolutions[index], old(Model(index)))
      ensures forall i :: 0 <= i < |resolutions| && i != index ==> Model(i) == old(Model(i))
      ensures events.Contents() == Reported(old(events.Contents()), events.queue.Length, index,
                                            ccw[index] > old(ccw[index]), cw[index] > old(cw[index]), flip)
    {
      var resolution := resolutions[index];
      pulses[index] := Int8(pulses[index] + EncoderLut(states[index] % 16));
      if pulses[index] >= resolution {
        var _ := events.QueueEvent(index, flip);
        ccw := ccw[index := ccw[index] + 1];
      }
      if pulses[index] <= -resolution {
        var _ := events.QueueEvent(index, !flip);
        cw := cw[index := cw[index] + 1];
      }
      pulses[index] := Rem(pulses[index], resolution);
    }

    /** `encoder_quadrature_handle_read`. */
    method Read(index: nat, padA: bool, padB: bool)
      requires Valid() && index < |resolutions|
      modifies this`ccw, this`cw, states, pulses, events`head, events`enqueued, events.queue
      ensures Valid()
      ensures var pins: Pins := (if padA then 1 else 0) + (if padB then 2 else 0);
              Model(index) == HandleRead(resolutions[index], old(Model(index)), pins)
      ensures events.Contents() == Reported(old(events.Contents()), events.queue.Length, index,
                                            ccw[index] > old(ccw[index]), cw[index] > old(cw[index]), flip)
      ensures forall i :: 0 <= i < |resolutions| && i != index ==> Model(i) == old(Model(i))
    {
      var pins: Pins := (if padA then 1 else 0) + (if padB then 2 else 0);
      if states[index] % 4 != pins {
        states[index] := 4 * (states[index] % 64) + pins;
        StateChange(index);
      }
    }
  }
}
