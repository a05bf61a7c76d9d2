/** Typing while a tap key is undecided, said on the events alone: nothing is delivered, and once the key is settled, in
    any of the four ways, it is delivered first and the typing after it, in order. */
module TappingRolls {
  import opened Keys
  import opened Timer
  import opened TappingModel
  import opened TappingRuns
  import opened TappingTaps

  predicate PressedIn(qs: seq<Event>, k: Key) {
    exists i :: 0 <= i < |qs| && IsPress(qs[i], k)
  }

  predicate SomePress(qs: seq<Event>) {
    exists i :: 0 <= i < |qs| && IsPress(qs[i], qs[i].key)
  }

  /** An event that has to wait while the key of `p` is undecided: another key, within the term, that settles nothing.
      The release of a key that went down before `p` only waits if the firmware keeps it back. */
  predicate Waits(c: Config, out: seq<Emission>, p: Event, before: seq<Event>, e: Event) {
    && !e.IsTick() && e.key != p.key && Soon(e, p, c.term(out, p.key))
    && (if e.pressed then !c.holdOnOtherKeyPress(out, p.key)
        else !c.permissiveHold(out, p.key) && (PressedIn(before, e.key) || c.retainsRelease(out, Record(e, NO_TAP))))
  }

  predicate AllWait(c: Config, out: seq<Emission>, p: Event, qs: seq<Event>) {
    forall i :: 0 <= i < |qs| ==> Waits(c, out, p, qs[..i], qs[i])
  }

  function Records(qs: seq<Event>): (rs: seq<Record>)
    ensures |rs| == |qs|
  {
    seq(|qs|, i requires 0 <= i < |qs| => Record(qs[i], NO_TAP))
  }

  /** The key of `p` is undecided and `qs` has been typed since. */
  predicate Rolling(s: State, p: Event, qs: seq<Event>, out: seq<Emission>, overflows: nat) {
    s == State(Record(p, Tap(SomePress(qs), 0)), Records(qs), out, overflows)
  }

  lemma TypedIsPressed(qs: seq<Event>, e: Event)
    requires !e.IsTick() && !e.pressed && forall i :: 0 <= i < |qs| ==> !qs[i].IsTick()
    ensures Typed(Records(qs), e) == PressedIn(qs, e.key)
  {
    if PressedIn(qs, e.key) {
      var i :| 0 <= i < |qs| && IsPress(qs[i], e.key);
      assert Records(qs)[i].event.key == e.key;
    }
    if Typed(Records(qs), e) {
      var i :| 0 <= i < |qs| && Records(qs)[i].event.key == e.key && Records(qs)[i].event.pressed != e.pressed;
      assert IsPress(qs[i], e.key);
    }
  }

  // ---------------------------------------------------------------- nothing is delivered yet

  lemma PutOff(c: Config, s: State, p: Event, b: bool, e: Event)
    requires s.tapping == Record(p, Tap(b, 0)) && IsPress(p, p.key)
    requires !e.IsTick() && e.key != p.key && Soon(e, p, c.term(s.out, p.key))
    requires if e.pressed then !c.holdOnOtherKeyPress(s.out, p.key)
             else !c.permissiveHold(s.out, p.key) && (Typed(s.waiting, e) || c.retainsRelease(s.out, Record(e, NO_TAP)))
    ensures Process(c, s, Record(e, NO_TAP))
         == Outcome(s.(tapping := Record(p, Tap(b || e.pressed, 0))), false, Record(e, NO_TAP))
  {
  }

  /** The loop over the waiting ring looks at the oldest event again and leaves it where it is. */
  lemma DrainStays(c: Config, s: State, p: Event, b: bool, h: Event)
    requires |s.waiting| > 0 && s.waiting[0] == Record(h, NO_TAP)
    requires s.tapping == Record(p, Tap(b, 0)) && IsPress(p, p.key) && (h.pressed ==> b)
    requires Waits(c, s.out, p, [], h)
    ensures Drain(c, s) == s
  {
    PutOff(c, s, p, b, h);
    assert s.waiting[0 := s.waiting[0]] == s.waiting;
  }

  lemma WaitStep(c: Config, s: State, p: Event, qs: seq<Event>, e: Event)
    requires IsPress(p, p.key) && Rolling(s, p, qs, s.out, s.overflows) && |qs| < WAITING_BUFFER_SIZE - 1
    requires (forall i :: 0 <= i < |qs| ==> !qs[i].IsTick()) && (qs != [] ==> Waits(c, s.out, p, [], qs[0]))
    requires Waits(c, s.out, p, qs, e)
    ensures Rolling(Exec(c, s, e), p, qs + [e], s.out, s.overflows)
  {
    if !e.pressed {
      TypedIsPressed(qs, e);
    }
    var b := SomePress(qs);
    PutOff(c, s, p, b, e);
    assert Records(qs) + [Record(e, NO_TAP)] == Records(qs + [e]);
    var s1 := State(Record(p, Tap(b || e.pressed, 0)), Records(qs + [e]), s.out, s.overflows);
    SomePressLast(qs, e);
    if qs == [] {
      FirstWaits(c, s.out, p, qs, e);
      DrainStays(c, s1, p, b || e.pressed, e);
    } else {
      if qs[0].pressed {
        assert IsPress(qs[0], qs[0].key);
      }
      DrainStays(c, s1, p, b || e.pressed, qs[0]);
    }
  }

  lemma FirstWaits(c: Config, out: seq<Emission>, p: Event, qs: seq<Event>, e: Event)
    requires qs == [] && Waits(c, out, p, qs, e)
    ensures Waits(c, out, p, [], e)
  {
  }

  lemma SomePressLast(qs: seq<Event>, e: Event)
    requires !e.IsTick()
    ensures SomePress(qs + [e]) == (SomePress(qs) || e.pressed)
  {
    var more := qs + [e];
    if SomePress(qs) {
      var i :| 0 <= i < |qs| && IsPress(qs[i], qs[i].key);
      assert IsPress(more[i], more[i].key);
    }
    if e.pressed {
      assert IsPress(more[|qs|], more[|qs|].key);
    }
    if SomePress(more) {
      var i :| 0 <= i < |more| && IsPress(more[i], more[i].key);
      assert i < |qs| ==> IsPress(qs[i], qs[i].key);
    }
  }

  /** While a tap key is undecided, typing that settles nothing delivers nothing: it waits in order. */
  lemma {:induction false} RollWaits(c: Config, es: seq<Event>, p: Event, qs: seq<Event>, n: nat)
    requires IsPress(p, p.key) && Free(Run(c, es), p.key) && c.isTap(Run(c, es).out, p.key)
    requires AllWait(c, Run(c, es).out, p, qs) && n <= |qs| < WAITING_BUFFER_SIZE
    ensures Rolling(Run(c, es + [p] + qs[..n]), p, qs[..n], Run(c, es).out, Run(c, es).overflows)
  {
    hide Exec, Run;
    var out := Run(c, es).out;
    if n == 0 {
      FirstPress(c, Run(c, es), p);
      RunSnoc(c, es, p);
      assert es + [p] + qs[..0] == es + [p];
      assert Records(qs[..0]) == [];
    } else {
      RollWaits(c, es, p, qs, n - 1);
      assert es + [p] + qs[..n] == es + [p] + qs[..n - 1] + [qs[n - 1]];
      assert qs[..n] == qs[..n - 1] + [qs[n - 1]];
      RunSnoc(c, es + [p] + qs[..n - 1], qs[n - 1]);
      assert Waits(c, out, p, qs[..n - 1], qs[n - 1]);
      if n > 1 {
        assert qs[..0] == [];
        assert Waits(c, out, p, qs[..0], qs[0]);
      }
      forall i | 0 <= i < n - 1 ensures !qs[i].IsTick() {
        assert Waits(c, out, p, qs[..i], qs[i]);
      }
      WaitStep(c, Run(c, es + [p] + qs[..n - 1]), p, qs[..n - 1], qs[n - 1]);
    }
  }

  // ---------------------------------------------------------------- the key is settled

  /** How event `e` settles the key of `p` after `qs`: as a hold when it comes late; otherwise as a tap when it is the
      release of the key, and as a hold when it is another press, or the release of a key pressed since, and the key is
      set up so. */
  predicate Settlement(c: Config, out: seq<Emission>, p: Event, qs: seq<Event>, e: Event, m: Emission) {
    if !Soon(e, p, c.term(out, p.key)) then m == Emission(Record(p, Tap(SomePress(qs), 0)), Held(e))
    else if e.IsTick() then false
    else if e.pressed then
      c.holdOnOtherKeyPress(out, p.key) && m == Emission(Record(p, Tap(true, 0)), Interfered(e))
    else if e.key == p.key then m == Emission(Record(p, Tap(SomePress(qs), 1)), Tapped(e))
    else
      && c.permissiveHold(out, p.key) && PressedIn(qs, e.key)
      && m == Emission(Record(p, Tap(true, 0)), Interfered(e))
  }

  /** Nothing that was typed starts a tap when its turn comes. */
  predicate NoTapKeys(c: Config, out: seq<Emission>, qs: seq<Event>) {
    forall i :: 0 <= i < |qs| ==> Plain(c, out + Passes(qs, i), qs[i])
  }

  predicate Plain(c: Config, out: seq<Emission>, e: Event) {
    e.IsTick() || !(e.pressed && c.isTap(out, e.key))
  }

  /** The event that settles the key, in turn; the release of a tap carries the tap. */
  function Settler(m: Emission, e: Event): seq<Emission> {
    if e.IsTick() then [] else [Emission(Record(e, if m.why.Tapped? then m.rec.tap else NO_TAP), Passed)]
  }

  /** No key, or a key that is down and repeating. */
  predicate Lets(t: Record, qs: seq<Event>) {
    t == NO_RECORD
    || (!t.event.IsTick() && t.event.pressed && t.tap.count > 0
        && forall i :: 0 <= i < |qs| ==> qs[i].key != t.event.key)
  }

  lemma PassOne(c: Config, s: State, e: Event)
    requires !e.IsTick() && Plain(c, s.out, e) && Lets(s.tapping, [e])
    ensures Process(c, s, Record(e, NO_TAP)) == Outcome(s.Emit(Record(e, NO_TAP), Passed), true, Record(e, NO_TAP))
  {
    assert [e][0] == e;
  }

  lemma DrainOne(c: Config, s: State, e: Event, rest: seq<Record>)
    requires s.waiting == [Record(e, NO_TAP)] + rest
    requires !e.IsTick() && Plain(c, s.out, e) && Lets(s.tapping, [e])
    ensures Drain(c, s)
         == Drain(c, State(s.tapping, rest, s.out + [Emission(Record(e, NO_TAP), Passed)], s.overflows))
  {
    PassOne(c, s, e);
    assert s.waiting[1..] == rest;
  }

  lemma {:induction false} DrainPasses(c: Config, t: Record, qs: seq<Event>, m: nat, tail: seq<Record>, out: seq<Emission>,
                                       overflows: nat)
    requires m <= |qs| && Lets(t, qs) && NoTapKeys(c, out, qs) && forall i :: 0 <= i < |qs| ==> !qs[i].IsTick()
    ensures Drain(c, State(t, Records(qs)[m..] + tail, out + Passes(qs, m), overflows))
         == Drain(c, State(t, tail, out + Passes(qs, |qs|), overflows))
    decreases |qs| - m
  {
    hide Drain;
    if m == |qs| {
      assert Records(qs)[m..] + tail == tail;
    } else {
      var s := State(t, Records(qs)[m..] + tail, out + Passes(qs, m), overflows);
      assert Plain(c, out + Passes(qs, m), qs[m]);
      assert Records(qs)[m..] == [Record(qs[m], NO_TAP)] + Records(qs)[m + 1..];
      assert s.waiting == [Record(qs[m], NO_TAP)] + (Records(qs)[m + 1..] + tail);
      DrainOne(c, s, qs[m], Records(qs)[m + 1..] + tail);
      assert s.out + [Emission(Record(qs[m], NO_TAP), Passed)] == out + Passes(qs, m + 1);
      DrainPasses(c, t, qs, m + 1, tail, out, overflows);
    }
  }

  /** The key as the settling event leaves it. */
  function SettledKey(m: Emission): Record { if m.why.Tapped? then m.rec else NO_RECORD }

  lemma SettleStep(c: Config, s: State, p: Event, qs: seq<Event>, e: Event, m: Emission)
    requires IsPress(p, p.key) && Rolling(s, p, qs, s.out, s.overflows)
    requires (forall i :: 0 <= i < |qs| ==> !qs[i].IsTick()) && Settlement(c, s.out, p, qs, e, m)
    ensures Process(c, s, Record(e, NO_TAP))
         == Outcome(State(SettledKey(m), s.waiting, s.out + [m], s.overflows), false,
              Record(e, if m.why.Tapped? then m.rec.tap else NO_TAP))
  {
    if !e.IsTick() && !e.pressed {
      TypedIsPressed(qs, e);
      if PressedIn(qs, e.key) {
        var i :| 0 <= i < |qs| && IsPress(qs[i], e.key);
        assert IsPress(qs[i], qs[i].key);
      }
    }
  }

  lemma SettlerPasses(c: Config, s: State, e: Event, m: Emission)
    requires !e.IsTick() && Plain(c, s.out, e) && s.tapping == SettledKey(m)
    requires m.why.Tapped? ==> IsPress(m.rec.event, e.key) && m.rec.tap.count > 0 && !e.pressed
    requires s.waiting == [Record(e, if m.why.Tapped? then m.rec.tap else NO_TAP)]
    ensures Drain(c, s).out == s.out + Settler(m, e)
    ensures Drain(c, s).waiting == [] && Drain(c, s).overflows == s.overflows
    ensures var t := Drain(c, s).tapping;
            t == NO_RECORD || (m.why.Tapped? && t == Record(e, m.rec.tap))
  {
    DrainSingle(c, s);
  }

  lemma SettleDrains(c: Config, out: seq<Emission>, p: Event, qs: seq<Event>, e: Event, m: Emission, s1: State)
    requires IsPress(p, p.key) && Settlement(c, out, p, qs, e, m)
    requires forall i :: 0 <= i < |qs| ==> !qs[i].IsTick() && qs[i].key != p.key
    requires NoTapKeys(c, out + [m], qs) && Plain(c, out + [m] + Passes(qs, |qs|), e)
    requires s1 == State(SettledKey(m),
                     Records(qs) + (if e.IsTick() then [] else [Record(e, if m.why.Tapped? then m.rec.tap else NO_TAP)]),
                     out + [m], s1.overflows)
    ensures Drain(c, s1).out == out + [m] + Passes(qs, |qs|) + Settler(m, e)
    ensures Drain(c, s1).waiting == [] && Drain(c, s1).overflows == s1.overflows
  {
    hide Drain;
    var tail := if e.IsTick() then [] else [Record(e, if m.why.Tapped? then m.rec.tap else NO_TAP)];
    var o := out + [m];
    assert Records(qs)[0..] == Records(qs);
    assert o + Passes(qs, 0) == o;
    DrainPasses(c, SettledKey(m), qs, 0, tail, o, s1.overflows);
    var s2 := State(SettledKey(m), tail, o + Passes(qs, |qs|), s1.overflows);
    if e.IsTick() {
      DrainEmpty(c, s2);
    } else {
      SettlerPasses(c, s2, e, m);
    }
  }

  lemma {:induction false} SettleExec(c: Config, s: State, p: Event, qs: seq<Event>, e: Event, m: Emission)
    requires IsPress(p, p.key) && Rolling(s, p, qs, s.out, s.overflows) && Settlement(c, s.out, p, qs, e, m)
    requires forall i :: 0 <= i < |qs| ==> !qs[i].IsTick() && qs[i].key != p.key
    requires |qs| < WAITING_BUFFER_SIZE - 1 || e.IsTick()
    requires NoTapKeys(c, s.out + [m], qs) && Plain(c, s.out + [m] + Passes(qs, |qs|), e)
    ensures Exec(c, s, e).out == s.out + [m] + Passes(qs, |qs|) + Settler(m, e)
    ensures Exec(c, s, e).waiting == [] && Exec(c, s, e).overflows == s.overflows
  {
    hide Drain, Process;
    SettleStep(c, s, p, qs, e, m);
    var o := Process(c, s, Record(e, NO_TAP));
    assert Records(qs) + [] == Records(qs);
    SettleDrains(c, s.out, p, qs, e, m, Enqueue(o.state, o.rec));
  }

  /** Whatever settles the undecided key, the key is delivered first, then everything typed meanwhile in the order in
      which it was typed, then the settling event; nothing is left waiting and nothing is lost. */
  lemma {:induction false} RollSettles(c: Config, es: seq<Event>, p: Event, qs: seq<Event>, e: Event, m: Emission)
    requires IsPress(p, p.key) && Free(Run(c, es), p.key) && c.isTap(Run(c, es).out, p.key)
    requires AllWait(c, Run(c, es).out, p, qs) && Settlement(c, Run(c, es).out, p, qs, e, m)
    requires |qs| < WAITING_BUFFER_SIZE - 1 || (|qs| < WAITING_BUFFER_SIZE && e.IsTick())
    requires NoTapKeys(c, Run(c, es).out + [m], qs) && Plain(c, Run(c, es).out + [m] + Passes(qs, |qs|), e)
    ensures var out := Run(c, es).out;
            var after := Run(c, es + [p] + qs + [e]);
            && Run(c, es + [p] + qs).out == out
            && after.out == out + [m] + Passes(qs, |qs|) + Settler(m, e)
            && after.waiting == [] && after.overflows == Run(c, es).overflows
  {
    hide Exec, Run;
    RollWaits(c, es, p, qs, |qs|);
    assert qs[..|qs|] == qs;
    RunSnoc(c, es + [p] + qs, e);
    forall i | 0 <= i < |qs| ensures !qs[i].IsTick() && qs[i].key != p.key {
      assert Waits(c, Run(c, es).out, p, qs[..i], qs[i]);
    }
    SettleExec(c, Run(c, es + [p] + qs), p, qs, e, m);
  }

  // ---------------------------------------------------------------- the ring is full, or holds the event up

  /** The eighth event that would have to wait clears everything, the undecided key included, unless it settled it. */
  lemma {:induction false} RollOverflows(c: Config, es: seq<Event>, p: Event, qs: seq<Event>, e: Event)
    requires IsPress(p, p.key) && Free(Run(c, es), p.key) && c.isTap(Run(c, es).out, p.key)
    requires AllWait(c, Run(c, es).out, p, qs) && |qs| == 7 && !e.IsTick()
    ensures Waits(c, Run(c, es).out, p, qs, e) ==>
              Rests(Run(c, es + [p] + qs + [e]), NO_RECORD, Run(c, es).out, Run(c, es).overflows + 1)
    ensures forall m :: Settlement(c, Run(c, es).out, p, qs, e, m) ==>
              Rests(Run(c, es + [p] + qs + [e]), NO_RECORD, Run(c, es).out + [m], Run(c, es).overflows + 1)
  {
    hide Exec, Run;
    RollWaits(c, es, p, qs, |qs|);
    assert qs[..|qs|] == qs;
    RunSnoc(c, es + [p] + qs, e);
    forall i | 0 <= i < |qs| ensures !qs[i].IsTick() {
      assert Waits(c, Run(c, es).out, p, qs[..i], qs[i]);
    }
    OverflowStep(c, Run(c, es + [p] + qs), p, qs, e);
  }

  lemma OverflowStep(c: Config, s: State, p: Event, qs: seq<Event>, e: Event)
    requires IsPress(p, p.key) && Rolling(s, p, qs, s.out, s.overflows) && |qs| == 7 && !e.IsTick()
    requires forall i :: 0 <= i < |qs| ==> !qs[i].IsTick()
    ensures Waits(c, s.out, p, qs, e) ==> Rests(Exec(c, s, e), NO_RECORD, s.out, s.overflows + 1)
    ensures forall m :: Settlement(c, s.out, p, qs, e, m) ==>
              Rests(Exec(c, s, e), NO_RECORD, s.out + [m], s.overflows + 1)
  {
    if Waits(c, s.out, p, qs, e) {
      if !e.pressed {
        TypedIsPressed(qs, e);
      }
      PutOff(c, s, p, SomePress(qs), e);
    }
    forall m | Settlement(c, s.out, p, qs, e, m)
      ensures Rests(Exec(c, s, e), NO_RECORD, s.out + [m], s.overflows + 1)
    {
      SettleStep(c, s, p, qs, e, m);
    }
  }

  /** The release of a key that went down before the undecided one, and that the firmware does not keep back, is
      delivered at once; a tick within the term changes nothing. */
  lemma {:induction false} OldReleasePasses(c: Config, es: seq<Event>, p: Event, qs: seq<Event>, e: Event)
    requires IsPress(p, p.key) && Free(Run(c, es), p.key) && c.isTap(Run(c, es).out, p.key)
    requires AllWait(c, Run(c, es).out, p, qs) && |qs| < WAITING_BUFFER_SIZE
    requires Soon(e, p, c.term(Run(c, es).out, p.key))
    ensures e.IsTick() ==> Run(c, es + [p] + qs + [e]) == Run(c, es + [p] + qs)
    ensures !e.IsTick() && !e.pressed && e.key != p.key && !PressedIn(qs, e.key)
            && !c.retainsRelease(Run(c, es).out, Record(e, NO_TAP)) ==>
              Run(c, es).out + [Emission(Record(e, NO_TAP), Passed)] <= Run(c, es + [p] + qs + [e]).out
    ensures !e.IsTick() && !e.pressed && e.key != p.key && qs == []
            && !c.retainsRelease(Run(c, es).out, Record(e, NO_TAP)) ==>
              Rests(Run(c, es + [p] + [e]), Record(p, NO_TAP),
                Run(c, es).out + [Emission(Record(e, NO_TAP), Passed)], Run(c, es).overflows)
  {
    hide Exec, Run;
    RollWaits(c, es, p, qs, |qs|);
    assert qs[..|qs|] == qs;
    assert qs == [] ==> es + [p] + qs + [e] == es + [p] + [e];
    RunSnoc(c, es + [p] + qs, e);
    forall i | 0 <= i < |qs| ensures !qs[i].IsTick() {
      assert Waits(c, Run(c, es).out, p, qs[..i], qs[i]);
    }
    if qs != [] {
      assert qs[..0] == [];
      assert Waits(c, Run(c, es).out, p, qs[..0], qs[0]);
    }
    OldReleaseStep(c, Run(c, es + [p] + qs), p, qs, e);
  }

  lemma OldReleaseStep(c: Config, s: State, p: Event, qs: seq<Event>, e: Event)
    requires IsPress(p, p.key) && Rolling(s, p, qs, s.out, s.overflows)
    requires (forall i :: 0 <= i < |qs| ==> !qs[i].IsTick()) && (qs != [] ==> Waits(c, s.out, p, [], qs[0]))
    requires Soon(e, p, c.term(s.out, p.key))
    ensures e.IsTick() ==> Exec(c, s, e) == s
    ensures !e.IsTick() && !e.pressed && e.key != p.key && !PressedIn(qs, e.key)
            && !c.retainsRelease(s.out, Record(e, NO_TAP)) ==>
              && s.out + [Emission(Record(e, NO_TAP), Passed)] <= Exec(c, s, e).out
              && (qs == [] ==> Exec(c, s, e) == s.(out := s.out + [Emission(Record(e, NO_TAP), Passed)]))
  {
    if e.IsTick() {
      if qs != [] {
        if qs[0].pressed {
          assert IsPress(qs[0], qs[0].key);
        }
        DrainStays(c, s, p, SomePress(qs), qs[0]);
      }
    } else if !e.pressed && e.key != p.key && !PressedIn(qs, e.key) {
      TypedIsPressed(qs, e);
      ProcessGrows(c, s, Record(e, NO_TAP));
      if !c.retainsRelease(s.out, Record(e, NO_TAP)) {
        var o := Process(c, s, Record(e, NO_TAP));
        DrainGrows(c, o.state);
      }
    }
  }

  // ---------------------------------------------------------------- rolling over two tap keys

  /** The key of `p` is let go of while that of `q`, another tap key, is down: the first is delivered as a tap, at once
      and complete, and the second is the undecided one from then on. */
  lemma {:induction false} RolledTaps(c: Config, es: seq<Event>, p: Event, q: Event, r: Event)
    requires IsPress(p, p.key) && Free(Run(c, es), p.key) && c.isTap(Run(c, es).out, p.key)
    requires IsPress(q, q.key) && Waits(c, Run(c, es).out, p, [], q)
    requires IsRelease(r, p.key) && Soon(r, p, c.term(Run(c, es).out, p.key))
    requires var out := Run(c, es).out + [Emission(Record(p, Tap(true, 1)), Tapped(r))];
             && c.isTap(out, q.key) && Soon(r, q, c.term(out, q.key))
             && !c.retainsRelease(out, Record(r, Tap(true, 1)))
    ensures Rests(Run(c, es + [p, q, r]), Record(q, NO_TAP),
              Run(c, es).out + [Emission(Record(p, Tap(true, 1)), Tapped(r)), Emission(Record(r, Tap(true, 1)), Passed)],
              Run(c, es).overflows)
  {
    hide Exec, Run;
    var out := Run(c, es).out;
    var m := Emission(Record(p, Tap(true, 1)), Tapped(r));
    assert AllWait(c, out, p, [q]) by {
      assert [q][..0] == [];
    }
    RollWaits(c, es, p, [q], 1);
    assert [q][..1] == [q];
    assert es + [p] + [q] + [r] == es + [p, q, r];
    RunSnoc(c, es + [p] + [q], r);
    assert IsPress([q][0], q.key);
    RolledStep(c, Run(c, es + [p] + [q]), p, q, r);
    assert out + [m] + [Emission(Record(r, Tap(true, 1)), Passed)]
        == out + [m, Emission(Record(r, Tap(true, 1)), Passed)];
  }

  lemma RolledStep(c: Config, s: State, p: Event, q: Event, r: Event)
    requires IsPress(p, p.key) && IsPress(q, q.key) && q.key != p.key && IsRelease(r, p.key)
    requires s.tapping == Record(p, Tap(true, 0)) && s.waiting == [Record(q, NO_TAP)]
    requires Soon(r, p, c.term(s.out, p.key))
    requires var out := s.out + [Emission(Record(p, Tap(true, 1)), Tapped(r))];
             && c.isTap(out, q.key) && Soon(r, q, c.term(out, q.key))
             && !c.retainsRelease(out, Record(r, Tap(true, 1)))
    ensures Rests(Exec(c, s, r), Record(q, NO_TAP),
              s.out + [Emission(Record(p, Tap(true, 1)), Tapped(r))] + [Emission(Record(r, Tap(true, 1)), Passed)],
              s.overflows)
  {
    var r' := Record(r, Tap(true, 1));
    var s1 := State(Record(p, Tap(true, 1)), [Record(q, NO_TAP), r'], s.out + [Emission(Record(p, Tap(true, 1)), Tapped(r))],
                    s.overflows);
    assert s.waiting + [r'] == s1.waiting;
    assert Exec(c, s, r) == Drain(c, s1);
    var s2 := s1.(tapping := Record(q, NO_TAP));
    assert FindRelease(c, s2, 0) == 2;
    assert Process(c, s1, s1.waiting[0]) == Outcome(s2, true, s1.waiting[0]);
    assert s2.waiting[1..] == [r'];
    DrainSingle(c, s2.(waiting := [r']));
  }

  // ---------------------------------------------------------------- a tap inside a hold

  /** The ring once the key of `q` has started and its waiting release `r` has been marked. */
  lemma StartFindsRelease(c: Config, s: State, q: Event, mid: seq<Event>, r: Event)
    requires s.waiting == Records([q] + mid + [r]) && s.tapping == NO_RECORD
    requires IsPress(q, q.key) && IsRelease(r, q.key) && c.isTap(s.out, q.key)
    requires Soon(r, q, c.term(s.out, q.key)) && forall i :: 0 <= i < |mid| ==> mid[i].key != q.key
    ensures var m := Emission(Record(q, Tap(false, 1)), Tapped(r));
            Drain(c, s) == Drain(c, State(m.rec, Records(mid) + [Record(r, Tap(false, 1))], s.out + [m], s.overflows))
  {
    var all := [q] + mid + [r];
    var s0 := s.(tapping := Record(q, NO_TAP));
    var n := |mid| + 1;
    assert all[n] == r;
    assert SettlesAsTap(c, s0, s0.waiting[n]);
    forall i | 0 <= i < n ensures !SettlesAsTap(c, s0, s0.waiting[i]) {
      assert all[i] == if i == 0 then q else mid[i - 1];
    }
    assert FindRelease(c, s0, 0) == n;
    var marked := s.waiting[n := Record(r, Tap(false, 1))];
    assert marked[1..] == Records(mid) + [Record(r, Tap(false, 1))];
  }

  lemma {:induction false} NestedDrains(c: Config, s: State, q: Event, mid: seq<Event>, r: Event)
    requires s.waiting == Records([q] + mid + [r]) && s.tapping == NO_RECORD
    requires IsPress(q, q.key) && IsRelease(r, q.key) && c.isTap(s.out, q.key)
    requires Soon(r, q, c.term(s.out, q.key)) && forall i :: 0 <= i < |mid| ==> !mid[i].IsTick() && mid[i].key != q.key
    requires NoTapKeys(c, s.out + [Emission(Record(q, Tap(false, 1)), Tapped(r))], mid)
    ensures Drain(c, s).out == s.out + [Emission(Record(q, Tap(false, 1)), Tapped(r))] + Passes(mid, |mid|)
                               + [Emission(Record(r, Tap(false, 1)), Passed)]
    ensures Drain(c, s).waiting == []
  {
    hide Drain;
    var m := Emission(Record(q, Tap(false, 1)), Tapped(r));
    var marked := [Record(r, Tap(false, 1))];
    var o := s.out + [m];
    StartFindsRelease(c, s, q, mid, r);
    assert Records(mid)[0..] == Records(mid);
    assert o + Passes(mid, 0) == o;
    DrainPasses(c, m.rec, mid, 0, marked, o, s.overflows);
    SettlerPasses(c, State(m.rec, marked, o + Passes(mid, |mid|), s.overflows), r, m);
  }

  /** When a hold is settled by time, a second tap key that was pressed and, within its own term, released meanwhile is
      a tap, settled at once and delivered before whatever was typed between its press and its release. */
  lemma {:induction false} TapInsideHold(c: Config, es: seq<Event>, p: Event, q: Event, mid: seq<Event>, r: Event, h: Event)
    requires IsPress(p, p.key) && Free(Run(c, es), p.key) && c.isTap(Run(c, es).out, p.key)
    requires AllWait(c, Run(c, es).out, p, [q] + mid + [r]) && |mid| < WAITING_BUFFER_SIZE - 2
    requires h.IsTick() && !Soon(h, p, c.term(Run(c, es).out, p.key))
    requires IsPress(q, q.key) && IsRelease(r, q.key) && forall i :: 0 <= i < |mid| ==> mid[i].key != q.key
    requires var out := Run(c, es).out + [Emission(Record(p, Tap(true, 0)), Held(h))];
             && c.isTap(out, q.key) && Soon(r, q, c.term(out, q.key))
             && NoTapKeys(c, out + [Emission(Record(q, Tap(false, 1)), Tapped(r))], mid)
    ensures var after := Run(c, es + [p] + ([q] + mid + [r]) + [h]);
            && after.out == Run(c, es).out
                 + [Emission(Record(p, Tap(true, 0)), Held(h))]
                 + [Emission(Record(q, Tap(false, 1)), Tapped(r))] + Passes(mid, |mid|)
                 + [Emission(Record(r, Tap(false, 1)), Passed)]
            && after.waiting == []
  {
    hide Exec, Run, Drain;
    var qs := [q] + mid + [r];
    var out := Run(c, es).out;
    RollWaits(c, es, p, qs, |qs|);
    assert qs[..|qs|] == qs;
    RunSnoc(c, es + [p] + qs, h);
    assert IsPress(qs[0], qs[0].key);
    forall i | 0 <= i < |qs| ensures !qs[i].IsTick() {
      assert Waits(c, out, p, qs[..i], qs[i]);
    }
    forall i | 0 <= i < |mid| ensures !mid[i].IsTick() {
      assert mid[i] == qs[i + 1];
    }
    HoldByTick(c, Run(c, es + [p] + qs), p, qs, h);
    NestedDrains(c, State(NO_RECORD, Records(qs), out + [Emission(Record(p, Tap(true, 0)), Held(h))],
                      Run(c, es).overflows), q, mid, r);
  }

  lemma HoldByTick(c: Config, s: State, p: Event, qs: seq<Event>, h: Event)
    requires IsPress(p, p.key) && Rolling(s, p, qs, s.out, s.overflows) && SomePress(qs)
    requires h.IsTick() && !Soon(h, p, c.term(s.out, p.key))
    ensures Exec(c, s, h) == Drain(c, State(NO_RECORD, Records(qs), s.out + [Emission(Record(p, Tap(true, 0)), Held(h))],
                                        s.overflows))
  {
  }
}
