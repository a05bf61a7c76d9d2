/** What every run of the tap/hold resolver keeps: conservation of events, the marked release behind
    every single tap, the reason behind every tap and hold decision, and first-in first-out waiting. */
module TappingRuns {
  import opened Keys
  import opened Timer
  import opened TappingModel

  // ---------------------------------------------------------------- the state invariant

  predicate GoodWaiting(r: Record) {
    && !r.event.IsTick()
    && (r.event.pressed ==> r.tap == NO_TAP)
    && r.tap.count <= 1
  }

  predicate AllGoodWaiting(w: seq<Record>) {
    forall i :: 0 <= i < |w| ==> GoodWaiting(w[i])
  }

  predicate GoodTapping(t: Record) {
    if t.event.IsTick() then t == NO_RECORD
    else t.tap.count <= MAX_TAP_COUNT && (!t.event.pressed ==> t.tap.count > 0)
  }

  predicate MarkedRelease(t: Record, r: Record) {
    SameKey(r, t) && !r.event.pressed && r.tap.count == 1
  }

  ghost predicate HasMarkedRelease(t: Record, w: seq<Record>) {
    exists i :: 0 <= i < |w| && MarkedRelease(t, w[i])
  }

  /** A key that is down and was tapped once still has its own release, marked as a tap, waiting. */
  ghost predicate TapNotStranded(t: Record, w: seq<Record>) {
    t.event.pressed && t.tap.count == 1 ==> HasMarkedRelease(t, w)
  }

  ghost predicate Inv(s: State) {
    && |s.waiting| < WAITING_BUFFER_SIZE
    && AllGoodWaiting(s.waiting)
    && GoodTapping(s.tapping)
    && TapNotStranded(s.tapping, s.waiting)
  }

  /** The record given to `process_tapping` is the oldest waiting one (`own`) or a fresh one. */
  predicate Handed(s: State, r: Record, own: bool) {
    if own then |s.waiting| > 0 && s.waiting[0] == r else r.tap == NO_TAP
  }

  /** The waiting records once the caller of `process_tapping` has dropped, kept or queued its record. */
  function Left(o: Outcome, own: bool): seq<Record>
    requires own ==> |o.state.waiting| > 0
  {
    var w := o.state.waiting;
    if own then (if o.done then w[1..] else w[0 := o.rec])
    else if o.done || o.rec.event.IsTick() then w else w + [o.rec]
  }

  lemma {:induction false} StartTapKeeps(c: Config, s: State, r: Record, own: bool)
    requires Handed(s, r, own) && AllGoodWaiting(s.waiting)
    requires GoodWaiting(r) && r.event.pressed
    ensures var s' := StartTap(c, s, r);
            var o := Outcome(s', true, r);
            && |s'.waiting| == |s.waiting|
            && AllGoodWaiting(s'.waiting) && GoodTapping(s'.tapping)
            && TapNotStranded(s'.tapping, Left(o, own))
  {
    var s0 := s.(tapping := r);
    var i := FindRelease(c, s0, 0);
    if i < |s.waiting| {
      var s' := StartTap(c, s, r);
      assert MarkedRelease(s'.tapping, s'.waiting[i]);
      var left := Left(Outcome(s', true, r), own);
      if own {
        assert left[i - 1] == s'.waiting[i];
      } else {
        assert left[i] == s'.waiting[i];
      }
    }
  }

  lemma {:induction false} MarkSurvives(t: Record, w: seq<Record>, r: Record)
    requires |w| > 0 && w[0] == r && HasMarkedRelease(t, w) && !MarkedRelease(t, r)
    ensures HasMarkedRelease(t, w[1..])
  {
    var i :| 0 <= i < |w| && MarkedRelease(t, w[i]);
    assert w[1..][i - 1] == w[i];
  }

  /** What every branch of `process_tapping` must leave behind. */
  ghost predicate Kept(s: State, o: Outcome, own: bool) {
    && |o.state.waiting| == |s.waiting|
    && (own ==> |s.waiting| > 0)
    && AllGoodWaiting(Left(o, own)) && GoodTapping(o.state.tapping)
    && TapNotStranded(o.state.tapping, Left(o, own))
    && o.state.overflows == s.overflows
  }

  lemma {:induction false} IdleKeeps(c: Config, s: State, r: Record, own: bool)
    requires Inv(s) && Handed(s, r, own) && s.tapping.event.IsTick()
    ensures Kept(s, ProcessIdle(c, s, r), own)
  {
    if !r.event.IsTick() && r.event.pressed {
      StartTapKeeps(c, s, r, own);
    }
  }

  lemma {:induction false} UndecidedKeeps(c: Config, s: State, r: Record, own: bool)
    requires Inv(s) && Handed(s, r, own) && Undecided(s.tapping) && !r.event.IsTick()
    ensures Kept(s, ProcessUndecided(c, s, r), own)
  {
    var o := ProcessUndecided(c, s, r);
    if SameKey(s.tapping, r) && !r.event.pressed {
      var left := Left(o, own);
      assert MarkedRelease(o.state.tapping, left[if own then 0 else |s.waiting|]);
    }
  }

  lemma {:induction false} TappedKeeps(c: Config, s: State, r: Record, own: bool, within: bool)
    requires Inv(s) && Handed(s, r, own)
    requires !s.tapping.event.IsTick() && s.tapping.event.pressed && s.tapping.tap.count > 0
    ensures Kept(s, ProcessTapped(c, s, r, within), own)
  {
    var t := s.tapping;
    if own && t.tap.count == 1 && !MarkedRelease(t, r) {
      MarkSurvives(t, s.waiting, r);
    }
    if !r.event.IsTick() && r.event.pressed {
      var s1 := if t.tap.count > 1 then s.Emit(MadeUpRelease(t, r.event.time), Synthesised) else s;
      StartTapKeeps(c, s1, r, own);
    }
  }

  lemma {:induction false} ReleasedKeeps(c: Config, s: State, r: Record, own: bool)
    requires Inv(s) && Handed(s, r, own)
    requires !s.tapping.event.IsTick() && !s.tapping.event.pressed
    ensures Kept(s, ProcessReleased(c, s, r), own)
  {
    if !r.event.IsTick() && r.event.pressed {
      StartTapKeeps(c, s, r, own);
    }
  }

  /** `process_tapping` keeps the invariant, whichever record it is given. */
  lemma {:induction false} ProcessKeeps(c: Config, s: State, r: Record, own: bool)
    requires Inv(s) && Handed(s, r, own)
    ensures Kept(s, Process(c, s, r), own)
  {
    var t := s.tapping;
    if t.event.IsTick() {
      IdleKeeps(c, s, r, own);
    } else if !t.event.pressed {
      ReleasedKeeps(c, s, r, own);
    } else if t.tap.count > 0 {
      TappedKeeps(c, s, r, own, WithinTappingTerm(c, s, r.event));
    } else if WithinTappingTerm(c, s, r.event) && !r.event.IsTick() {
      UndecidedKeeps(c, s, r, own);
    }
  }

  lemma {:induction false} DrainKeeps(c: Config, s: State)
    requires Inv(s)
    ensures Inv(Drain(c, s))
    ensures Drain(c, s).overflows == s.overflows
    decreases |s.waiting|
  {
    if s.waiting != [] {
      var o := Process(c, s, s.waiting[0]);
      ProcessKeeps(c, s, s.waiting[0], true);
      if o.done {
        DrainKeeps(c, o.state.(waiting := o.state.waiting[1..]));
      }
    }
  }

  lemma {:induction false} ExecKeeps(c: Config, s: State, e: Event)
    requires Inv(s)
    ensures Inv(Exec(c, s, e))
    ensures Exec(c, s, e).overflows == s.overflows
         || (Exec(c, s, e).overflows == s.overflows + 1
             && Exec(c, s, e).tapping == NO_RECORD && Exec(c, s, e).waiting == [])
  {
    var o := Process(c, s, Record(e, NO_TAP));
    ProcessKeeps(c, s, Record(e, NO_TAP), false);
    var s' := if o.done then o.state else Enqueue(o.state, o.rec);
    DrainKeeps(c, s');
  }

  /** Every reachable state satisfies the invariant; in particular abandoning a key tapped once, when
      another tap key starts, leaves its marked release waiting. */
  lemma {:induction false} RunKeeps(c: Config, es: seq<Event>)
    ensures Inv(Run(c, es))
  {
    if es != [] {
      RunKeeps(c, es[..|es| - 1]);
      ExecKeeps(c, Run(c, es[..|es| - 1]), es[|es| - 1]);
    }
  }

  // ---------------------------------------------------------------- conservation of events

  function EventSeq(w: seq<Record>): (es: seq<Event>)
    ensures |es| == |w|
  {
    seq(|w|, i requires 0 <= i < |w| => w[i].event)
  }

  /** How often a record stands for the real event `x`. */
  function One(e: Event, x: Event): nat {
    if e == x && !x.IsTick() then 1 else 0
  }

  /** How often the real event `x` came in. */
  function Arrived(es: seq<Event>, x: Event): nat {
    if es == [] then 0 else Arrived(es[..|es| - 1], x) + One(es[|es| - 1], x)
  }

  /** How often `x` was emitted, leaving out the made-up releases. */
  function Delivered(out: seq<Emission>, x: Event): nat {
    if out == [] then 0
    else
      var last := out[|out| - 1];
      Delivered(out[..|out| - 1], x) + (if last.why.Synthesised? then 0 else One(last.rec.event, x))
  }

  function Waiting(w: seq<Record>, x: Event): nat {
    if w == [] then 0 else One(w[0].event, x) + Waiting(w[1..], x)
  }

  function Pending(t: Record, x: Event): nat {
    if Undecided(t) then One(t.event, x) else 0
  }

  /** Delivered, or held back by the undecided tapping key. */
  function Settled(s: State, x: Event): nat {
    Delivered(s.out, x) + Pending(s.tapping, x)
  }

  lemma {:induction false} EmitDelivers(s: State, r: Record, why: Cause, x: Event)
    ensures Delivered(s.Emit(r, why).out, x)
         == Delivered(s.out, x) + (if why.Synthesised? then 0 else One(r.event, x))
  {
    var out := s.Emit(r, why).out;
    assert out[..|out| - 1] == s.out;
  }

  lemma {:induction false} WaitingSnoc(w: seq<Record>, r: Record, x: Event)
    ensures Waiting(w + [r], x) == Waiting(w, x) + One(r.event, x)
  {
    if w != [] {
      WaitingSnoc(w[1..], r, x);
      assert (w + [r])[1..] == w[1..] + [r];
    } else {
      assert w + [r] == [r];
    }
  }

  lemma {:induction false} WaitingByEvents(v: seq<Record>, w: seq<Record>, x: Event)
    requires EventSeq(v) == EventSeq(w)
    ensures Waiting(v, x) == Waiting(w, x)
  {
    assert |v| == |EventSeq(v)| == |w|;
    if v != [] {
      assert v[0].event == EventSeq(v)[0] == w[0].event;
      assert EventSeq(v[1..]) == EventSeq(v)[1..] == EventSeq(w[1..]);
      WaitingByEvents(v[1..], w[1..], x);
    }
  }

  lemma {:induction false} StartTapBalance(c: Config, s: State, r: Record, x: Event)
    requires !r.event.IsTick() && r.event.pressed && r.tap == NO_TAP
    ensures Settled(StartTap(c, s, r), x) == Delivered(s.out, x) + One(r.event, x)
    ensures EventSeq(StartTap(c, s, r).waiting) == EventSeq(s.waiting)
  {
    var s0 := s.(tapping := r);
    var i := FindRelease(c, s0, 0);
    if i < |s.waiting| {
      EmitDelivers(s0, r.(tap := r.tap.(count := 1)), Tapped(s.waiting[i].event), x);
    }
  }

  /** The outcome settles exactly the record it reports as done, and moves no waiting event. */
  predicate Balanced(s: State, o: Outcome, r: Record, x: Event) {
    && o.rec.event == r.event
    && EventSeq(o.state.waiting) == EventSeq(s.waiting)
    && Settled(o.state, x) == Settled(s, x) + (if o.done then One(r.event, x) else 0)
  }

  lemma {:induction false} UndecidedBalance(c: Config, s: State, r: Record, x: Event)
    requires Undecided(s.tapping) && !r.event.IsTick()
    ensures Balanced(s, ProcessUndecided(c, s, r), r, x)
  {
    var o := ProcessUndecided(c, s, r);
    if |o.state.out| > |s.out| {
      EmitDelivers(s, o.state.out[|s.out|].rec, o.state.out[|s.out|].why, x);
    }
  }

  lemma {:induction false} TappedBalance(c: Config, s: State, r: Record, within: bool, x: Event)
    requires s.tapping.event.pressed && s.tapping.tap.count > 0
    requires r.event.pressed ==> r.tap == NO_TAP
    ensures Balanced(s, ProcessTapped(c, s, r, within), r, x)
  {
    var t := s.tapping;
    if r.event.IsTick() {
    } else if c.isTap(s.out, r.event.key) && r.event.pressed {
      var m := MadeUpRelease(t, r.event.time);
      EmitDelivers(s, m, Synthesised, x);
      StartTapBalance(c, if t.tap.count > 1 then s.Emit(m, Synthesised) else s, r, x);
    } else {
      EmitDelivers(s, ProcessTapped(c, s, r, within).rec, Passed, x);
    }
  }

  lemma {:induction false} ReleasedBalance(c: Config, s: State, r: Record, x: Event)
    requires !s.tapping.event.pressed
    requires r.event.pressed ==> r.tap == NO_TAP
    ensures Balanced(s, ProcessReleased(c, s, r), r, x)
  {
    var o := ProcessReleased(c, s, r);
    if r.event.IsTick() || !WithinTappingTerm(c, s, r.event) {
    } else if r.event.pressed && !SameKey(s.tapping, r) && c.isTap(s.out, r.event.key) {
      StartTapBalance(c, s, r, x);
    } else if |o.state.out| > |s.out| {
      EmitDelivers(s, o.rec, o.state.out[|s.out|].why, x);
    }
  }

  lemma {:induction false} ProcessBalance(c: Config, s: State, r: Record, x: Event)
    requires GoodTapping(s.tapping)
    requires r.event.pressed ==> r.tap == NO_TAP
    ensures Balanced(s, Process(c, s, r), r, x)
  {
    var t := s.tapping;
    if t.event.IsTick() {
      if !r.event.IsTick() {
        EmitDelivers(s, r, Passed, x);
        if r.event.pressed {
          StartTapBalance(c, s, r, x);
        }
      }
    } else if !t.event.pressed {
      ReleasedBalance(c, s, r, x);
    } else if t.tap.count > 0 {
      TappedBalance(c, s, r, WithinTappingTerm(c, s, r.event), x);
    } else if !WithinTappingTerm(c, s, r.event) {
      EmitDelivers(s, t, Held(r.event), x);
    } else if !r.event.IsTick() {
      UndecidedBalance(c, s, r, x);
    }
  }

  lemma {:induction false} DrainBalance(c: Config, s: State, x: Event)
    requires Inv(s)
    ensures Settled(Drain(c, s), x) + Waiting(Drain(c, s).waiting, x) == Settled(s, x) + Waiting(s.waiting, x)
    decreases |s.waiting|
  {
    if s.waiting != [] {
      var r := s.waiting[0];
      var o := Process(c, s, r);
      ProcessBalance(c, s, r, x);
      ProcessKeeps(c, s, r, true);
      if o.done {
        var s' := o.state.(waiting := o.state.waiting[1..]);
        DrainBalance(c, s', x);
        WaitingByEvents(o.state.waiting, s.waiting, x);
        assert o.state.waiting[0].event == EventSeq(o.state.waiting)[0] == r.event;
      } else {
        assert EventSeq(o.state.waiting[0 := o.rec]) == EventSeq(s.waiting);
        WaitingByEvents(o.state.waiting[0 := o.rec], s.waiting, x);
      }
    }
  }

  lemma {:induction false} ExecBalance(c: Config, s: State, e: Event, x: Event)
    requires Inv(s)
    requires Exec(c, s, e).overflows == s.overflows
    ensures Settled(Exec(c, s, e), x) + Waiting(Exec(c, s, e).waiting, x)
         == Settled(s, x) + Waiting(s.waiting, x) + One(e, x)
  {
    var r := Record(e, NO_TAP);
    var o := Process(c, s, r);
    ProcessBalance(c, s, r, x);
    ProcessKeeps(c, s, r, false);
    WaitingByEvents(o.state.waiting, s.waiting, x);
    var s' := if o.done then o.state else Enqueue(o.state, o.rec);
    DrainKeeps(c, s');
    DrainBalance(c, s', x);
    WaitingSnoc(o.state.waiting, o.rec, x);
  }

  lemma {:induction false} OverflowsGrow(c: Config, es: seq<Event>)
    requires es != []
    ensures Run(c, es[..|es| - 1]).overflows <= Run(c, es).overflows
  {
    RunKeeps(c, es[..|es| - 1]);
    ExecKeeps(c, Run(c, es[..|es| - 1]), es[|es| - 1]);
  }

  /** In a run that never overflowed the ring, every real event was emitted (made-up releases aside), is
      waiting, or is the undecided tapping key, exactly as often as it came in. */
  lemma {:induction false} Conservation(c: Config, es: seq<Event>, x: Event)
    requires Run(c, es).overflows == 0
    ensures var s := Run(c, es);
            Delivered(s.out, x) + Waiting(s.waiting, x) + Pending(s.tapping, x) == Arrived(es, x)
  {
    if es != [] {
      OverflowsGrow(c, es);
      Conservation(c, es[..|es| - 1], x);
      RunKeeps(c, es[..|es| - 1]);
      ExecBalance(c, Run(c, es[..|es| - 1]), es[|es| - 1], x);
    }
  }

  // ---------------------------------------------------------------- waiting is first in, first out

  predicate IsSuffix(a: seq<Event>, b: seq<Event>) {
    |a| <= |b| && a == b[|b| - |a|..]
  }

  lemma {:induction false} DrainLeavesSuffix(c: Config, s: State)
    requires Inv(s)
    ensures IsSuffix(EventSeq(Drain(c, s).waiting), EventSeq(s.waiting))
    decreases |s.waiting|
  {
    if s.waiting != [] {
      var r := s.waiting[0];
      var o := Process(c, s, r);
      ProcessBalance(c, s, r, r.event);
      ProcessKeeps(c, s, r, true);
      if o.done {
        var s' := o.state.(waiting := o.state.waiting[1..]);
        DrainLeavesSuffix(c, s');
        assert EventSeq(s'.waiting) == EventSeq(s.waiting)[1..];
      } else {
        assert EventSeq(o.state.waiting[0 := o.rec]) == EventSeq(s.waiting);
      }
    }
  }

  lemma {:induction false} EnqueueAppends(s: State, r: Record)
    requires Enqueue(s, r).overflows == s.overflows
    ensures EventSeq(Enqueue(s, r).waiting) == EventSeq(s.waiting) + (if r.event.IsTick() then [] else [r.event])
  {
  }

  /** Waiting events leave from the front, in the order in which they arrived; only the new event, when
      it is not a tick, can join, at the back. */
  lemma {:induction false} WaitingIsFifo(c: Config, s: State, e: Event)
    requires Inv(s)
    requires Exec(c, s, e).overflows == s.overflows
    ensures var before := EventSeq(s.waiting);
            var after := EventSeq(Exec(c, s, e).waiting);
            IsSuffix(after, if Process(c, s, Record(e, NO_TAP)).done || e.IsTick() then before else before + [e])
  {
    var r := Record(e, NO_TAP);
    var o := Process(c, s, r);
    ProcessBalance(c, s, r, e);
    ProcessKeeps(c, s, r, false);
    var s' := if o.done then o.state else Enqueue(o.state, o.rec);
    DrainKeeps(c, s');
    DrainLeavesSuffix(c, s');
    if !o.done {
      EnqueueAppends(o.state, o.rec);
    }
  }

  // ---------------------------------------------------------------- why a key was tapped or held

  /** The reason given for the `i`-th emission is true, judged by the terms in force at that moment. */
  predicate Justified(c: Config, out: seq<Emission>, i: nat)
    requires i < |out|
  {
    var r := out[i].rec;
    var key := r.event.key;
    match out[i].why
    case Passed => r.event.pressed ==> r.tap == NO_TAP && !c.isTap(out[..i], key)
    case Tapped(e) =>
      && r.event.pressed && r.tap.count == 1
      && e.key == key && !e.pressed
      && TimerDiff16(e.time, r.event.time) < c.term(out[..i], key)
    case Held(e) =>
      && r.event.pressed && r.tap.count == 0
      && TimerDiff16(e.time, r.event.time) >= c.term(out[..i], key)
    case Interfered(e) =>
      && r.event.pressed && r.tap.count == 0
      && TimerDiff16(e.time, r.event.time) < c.term(out[..i], key)
      && (if e.pressed then c.holdOnOtherKeyPress(out[..i], key) else c.permissiveHold(out[..i], key))
    case Retapped(after) =>
      && r.event.pressed && r.tap == NextTap(after.tap) && 2 <= r.tap.count <= MAX_TAP_COUNT
      && after.event.key == key && !after.event.pressed && !after.tap.interrupted
      && TimerDiff16(r.event.time, after.event.time) < c.term(out[..i], key)
      && TimerDiff16(r.event.time, after.event.time) < c.quickTapTerm(out[..i], key)
    case Synthesised => !r.event.pressed && 2 <= r.tap.count <= MAX_TAP_COUNT
  }

  ghost predicate AllJustified(c: Config, out: seq<Emission>) {
    forall i :: 0 <= i < |out| ==> Justified(c, out, i)
  }

  lemma {:induction false} EmitJustified(c: Config, s: State, r: Record, why: Cause)
    requires AllJustified(c, s.out)
    requires Justified(c, s.out + [Emission(r, why)], |s.out|)
    ensures AllJustified(c, s.Emit(r, why).out)
  {
    var out := s.Emit(r, why).out;
    forall i | 0 <= i < |out| ensures Justified(c, out, i) {
      if i < |s.out| {
        assert out[..i] == s.out[..i];
        assert Justified(c, s.out, i);
      }
    }
  }

  lemma {:induction false} StartTapJustified(c: Config, s: State, r: Record)
    requires AllJustified(c, s.out) && r.event.pressed && r.tap == NO_TAP
    ensures AllJustified(c, StartTap(c, s, r).out)
  {
    var s0 := s.(tapping := r);
    var i := FindRelease(c, s0, 0);
    if i < |s.waiting| {
      var t := r.(tap := r.tap.(count := 1));
      var why := Tapped(s.waiting[i].event);
      assert (s.out + [Emission(t, why)])[..|s.out|] == s.out;
      EmitJustified(c, s0, t, why);
    }
  }

  lemma {:induction false} ProcessJustified(c: Config, s: State, r: Record)
    requires AllJustified(c, s.out) && GoodTapping(s.tapping)
    requires r.event.pressed ==> r.tap == NO_TAP
    ensures AllJustified(c, Process(c, s, r).state.out)
    ensures s.out <= Process(c, s, r).state.out
  {
    var t := s.tapping;
    var o := Process(c, s, r);
    if !t.event.IsTick() && t.event.pressed && t.tap.count > 1 {
      var m := MadeUpRelease(t, r.event.time);
      EmitJustified(c, s, m, Synthesised);
      if r.event.pressed {
        StartTapJustified(c, s.Emit(m, Synthesised), r);
      }
    } else {
      if r.event.pressed {
        StartTapJustified(c, s, r);
      }
    }
    if |o.state.out| == |s.out| + 1 {
      var e := o.state.out[|s.out|];
      assert (s.out + [e])[..|s.out|] == s.out;
      EmitJustified(c, s, e.rec, e.why);
    }
  }

  lemma {:induction false} DrainJustified(c: Config, s: State)
    requires Inv(s) && AllJustified(c, s.out)
    ensures AllJustified(c, Drain(c, s).out)
    ensures s.out <= Drain(c, s).out
    decreases |s.waiting|
  {
    if s.waiting != [] {
      var r := s.waiting[0];
      var o := Process(c, s, r);
      ProcessKeeps(c, s, r, true);
      ProcessJustified(c, s, r);
      if o.done {
        DrainJustified(c, o.state.(waiting := o.state.waiting[1..]));
      }
    }
  }

  lemma {:induction false} ExecJustified(c: Config, s: State, e: Event)
    requires Inv(s) && AllJustified(c, s.out)
    ensures AllJustified(c, Exec(c, s, e).out)
    ensures Process(c, s, Record(e, NO_TAP)).state.out <= Exec(c, s, e).out
  {
    var r := Record(e, NO_TAP);
    var o := Process(c, s, r);
    ProcessKeeps(c, s, r, false);
    ProcessJustified(c, s, r);
    DrainJustified(c, if o.done then o.state else Enqueue(o.state, o.rec));
  }

  /** In every run, a key is emitted as a tap only for a release of that key within the tapping term,
      and as a hold only for an event or tick past the term or for an interfering key. */
  lemma {:induction false} RunJustified(c: Config, es: seq<Event>)
    ensures AllJustified(c, Run(c, es).out)
  {
    if es != [] {
      var s := Run(c, es[..|es| - 1]);
      RunJustified(c, es[..|es| - 1]);
      RunKeeps(c, es[..|es| - 1]);
      ExecJustified(c, s, es[|es| - 1]);
    }
  }

  /** With permissive hold and hold-on-other-key-press off, time alone makes a hold: no key is settled by another, and
      a tap key pressed with count 0 was settled by an event or tick past its term. */
  lemma {:induction false} OnlyTimeHolds(c: Config, es: seq<Event>, i: nat)
    requires forall out, k :: !c.permissiveHold(out, k) && !c.holdOnOtherKeyPress(out, k)
    requires i < |Run(c, es).out|
    ensures var out := Run(c, es).out;
            var r := out[i].rec;
            && !out[i].why.Interfered?
            && (r.event.pressed && r.tap.count == 0 && c.isTap(out[..i], r.event.key) ==>
                  && out[i].why.Held? && out[i].why.on in es
                  && TimerDiff16(out[i].why.on.time, r.event.time) >= c.term(out[..i], r.event.key))
  {
    RunJustified(c, es);
    RunFrom(c, es);
    assert Justified(c, Run(c, es).out, i);
    assert EmissionFrom(es, Run(c, es).out[i]);
  }

  /** A tick or other event past the term settles the undecided key as a hold in that very call. */
  lemma {:induction false} LateEventHolds(c: Config, s: State, e: Event)
    requires Inv(s) && AllJustified(c, s.out)
    requires Undecided(s.tapping) && !WithinTappingTerm(c, s, e)
    ensures s.out + [Emission(s.tapping, Held(e))] <= Exec(c, s, e).out
  {
    ExecJustified(c, s, e);
  }

  /** The release of the undecided key within the term settles it as a tap in that very call. */
  lemma {:induction false} PromptReleaseTaps(c: Config, s: State, e: Event)
    requires Inv(s) && AllJustified(c, s.out)
    requires Undecided(s.tapping) && WithinTappingTerm(c, s, e)
    requires !e.IsTick() && !e.pressed && e.key == s.tapping.event.key
    ensures s.out + [Emission(s.tapping.(tap := s.tapping.tap.(count := 1)), Tapped(e))] <= Exec(c, s, e).out
  {
    ExecJustified(c, s, e);
  }

  // ---------------------------------------------------------------- nothing is made up or lost

  predicate EmissionFrom(es: seq<Event>, m: Emission) {
    && (m.why.Synthesised? || m.rec.event in es)
    && (m.why.Tapped? || m.why.Held? || m.why.Interfered? ==> m.why.on in es)
    && (m.why.Retapped? ==> m.why.after.event in es)
  }

  /** Everything the state holds or has emitted, and every reason it gave, came in as `es`. */
  ghost predicate StateFrom(es: seq<Event>, s: State) {
    && (s.tapping.event.IsTick() || s.tapping.event in es)
    && (forall i :: 0 <= i < |s.waiting| ==> s.waiting[i].event in es)
    && (forall i :: 0 <= i < |s.out| ==> EmissionFrom(es, s.out[i]))
  }

  lemma {:induction false} StartTapFrom(es: seq<Event>, c: Config, s: State, r: Record)
    requires StateFrom(es, s) && r.event in es
    ensures StateFrom(es, StartTap(c, s, r))
  {
  }

  lemma {:induction false} ProcessFrom(es: seq<Event>, c: Config, s: State, r: Record)
    requires StateFrom(es, s) && r.event in es
    ensures StateFrom(es, Process(c, s, r).state)
    ensures Process(c, s, r).rec.event == r.event
  {
    StartTapFrom(es, c, s, r);
    StartTapFrom(es, c, s.Emit(MadeUpRelease(s.tapping, r.event.time), Synthesised), r);
  }

  lemma {:induction false} DrainFrom(es: seq<Event>, c: Config, s: State)
    requires StateFrom(es, s)
    ensures StateFrom(es, Drain(c, s))
    decreases |s.waiting|
  {
    if s.waiting != [] {
      var o := Process(c, s, s.waiting[0]);
      ProcessFrom(es, c, s, s.waiting[0]);
      ProcessKeepsLength(c, s, s.waiting[0]);
      if o.done {
        DrainFrom(es, c, o.state.(waiting := o.state.waiting[1..]));
      }
    }
  }

  /** The resolver invents nothing but the made-up releases, and each reason it gives was really seen. */
  lemma {:induction false} RunFrom(c: Config, es: seq<Event>)
    ensures StateFrom(es, Run(c, es))
  {
    if es != [] {
      var s := Run(c, es[..|es| - 1]);
      var e := es[|es| - 1];
      RunFrom(c, es[..|es| - 1]);
      assert StateFrom(es, s);
      var o := Process(c, s, Record(e, NO_TAP));
      ProcessFrom(es, c, s, Record(e, NO_TAP));
      DrainFrom(es, c, if o.done then o.state else Enqueue(o.state, o.rec));
    }
  }

  // ---------------------------------------------------------------- a tap is always let go of

  /** The release `x` is waiting, marked as that of a single tap. */
  ghost predicate WaitsMarked(w: seq<Record>, x: Event) {
    exists i :: 0 <= i < |w| && w[i].event == x && w[i].tap.count == 1
  }

  /** The release `x` was emitted as that of a tap, at position `from` or later. */
  ghost predicate LetGo(out: seq<Emission>, from: nat, x: Event) {
    exists j :: from <= j < |out| && out[j].rec.event == x && out[j].rec.tap.count >= 1
  }

  ghost predicate Safe(s: State, from: nat, x: Event) {
    WaitsMarked(s.waiting, x) || LetGo(s.out, from, x)
  }

  lemma {:induction false} LetGoGrows(out: seq<Emission>, more: seq<Emission>, from: nat, x: Event)
    requires LetGo(out, from, x) && out <= more
    ensures LetGo(more, from, x)
  {
    var j :| from <= j < |out| && out[j].rec.event == x && out[j].rec.tap.count >= 1;
    assert more[j] == out[j];
  }

  /** A marked release that is given to `process_tapping` is emitted as one, or handed back still marked. */
  lemma {:induction false} ProcessLetsGo(c: Config, s: State, r: Record, from: nat)
    requires GoodTapping(s.tapping) && !r.event.IsTick() && !r.event.pressed && r.tap.count == 1 && from <= |s.out|
    ensures var o := Process(c, s, r);
            if o.done then LetGo(o.state.out, from, r.event) else o.rec.event == r.event && o.rec.tap.count == 1
  {
    var o := Process(c, s, r);
    if o.done {
      assert o.state.out[|s.out|].rec.event == r.event;
    }
  }

  /** Marks of waiting records stay. */
  lemma {:induction false} ProcessKeepsMarks(c: Config, s: State, r: Record, i: nat)
    requires i < |s.waiting| && s.waiting[i].tap.count == 1
    ensures var o := Process(c, s, r);
            i < |o.state.waiting| && o.state.waiting[i].event == s.waiting[i].event && o.state.waiting[i].tap.count == 1
  {
  }

  lemma {:induction false} ProcessGrows(c: Config, s: State, r: Record)
    ensures s.out <= Process(c, s, r).state.out
  {
  }

  lemma {:induction false} DrainStepSafe(c: Config, s: State, from: nat, x: Event)
    requires Inv(s) && s.waiting != [] && WaitsMarked(s.waiting, x) && !x.pressed && from <= |s.out|
    ensures var o := Process(c, s, s.waiting[0]);
            && |o.state.waiting| == |s.waiting|
            && if o.done then Safe(o.state.(waiting := o.state.waiting[1..]), from, x)
               else Safe(o.state.(waiting := o.state.waiting[0 := o.rec]), from, x)
  {
    var r := s.waiting[0];
    var o := Process(c, s, r);
    ProcessKeepsLength(c, s, r);
    var i :| 0 <= i < |s.waiting| && s.waiting[i].event == x && s.waiting[i].tap.count == 1;
    assert GoodWaiting(s.waiting[i]);
    ProcessKeepsMarks(c, s, r, i);
    if i == 0 {
      ProcessLetsGo(c, s, r, from);
      assert !o.done ==> o.state.waiting[0 := o.rec][0] == o.rec;
    } else {
      assert o.state.waiting[1..][i - 1] == o.state.waiting[i];
      assert o.state.waiting[0 := o.rec][i] == o.state.waiting[i];
    }
  }

  lemma {:induction false} DrainGrows(c: Config, s: State)
    ensures s.out <= Drain(c, s).out
    decreases |s.waiting|
  {
    if s.waiting != [] {
      var o := Process(c, s, s.waiting[0]);
      ProcessGrows(c, s, s.waiting[0]);
      ProcessKeepsLength(c, s, s.waiting[0]);
      if o.done {
        DrainGrows(c, o.state.(waiting := o.state.waiting[1..]));
      }
    }
  }

  lemma {:induction false} DrainSafe(c: Config, s: State, from: nat, x: Event)
    requires Inv(s) && Safe(s, from, x) && !x.pressed && from <= |s.out|
    ensures Safe(Drain(c, s), from, x)
    decreases |s.waiting|
  {
    DrainGrows(c, s);
    if LetGo(s.out, from, x) {
      LetGoGrows(s.out, Drain(c, s).out, from, x);
    } else {
      var o := Process(c, s, s.waiting[0]);
      DrainStepSafe(c, s, from, x);
      ProcessKeeps(c, s, s.waiting[0], true);
      ProcessGrows(c, s, s.waiting[0]);
      if o.done {
        DrainSafe(c, o.state.(waiting := o.state.waiting[1..]), from, x);
      }
    }
  }

  lemma {:induction false} ExecSafe(c: Config, s: State, e: Event, from: nat, x: Event)
    requires Inv(s) && Safe(s, from, x) && !x.pressed && from <= |s.out|
    requires Exec(c, s, e).overflows == s.overflows
    ensures Safe(Exec(c, s, e), from, x) && from <= |Exec(c, s, e).out|
  {
    var r := Record(e, NO_TAP);
    var o := Process(c, s, r);
    ProcessKeeps(c, s, r, false);
    ProcessGrows(c, s, r);
    var s' := if o.done then o.state else Enqueue(o.state, o.rec);
    DrainKeeps(c, s');
    if LetGo(s.out, from, x) {
      LetGoGrows(s.out, s'.out, from, x);
    } else {
      var i :| 0 <= i < |s.waiting| && s.waiting[i].event == x && s.waiting[i].tap.count == 1;
      ProcessKeepsMarks(c, s, r, i);
      assert s'.waiting[i] == o.state.waiting[i];
    }
    DrainSafe(c, s', from, x);
    DrainGrows(c, s');
  }

  lemma {:induction false} RunSnoc(c: Config, es: seq<Event>, e: Event)
    ensures Run(c, es + [e]) == Exec(c, Run(c, es), e)
  {
    assert (es + [e])[..|es|] == es;
  }

  lemma {:induction false} OverflowsSnoc(c: Config, es: seq<Event>, e: Event)
    ensures Run(c, es).overflows <= Run(c, es + [e]).overflows
  {
    hide Run, Exec;
    RunSnoc(c, es, e);
    RunKeeps(c, es);
    ExecKeeps(c, Run(c, es), e);
  }

  lemma {:induction false} OverflowsBetween(c: Config, es: seq<Event>, more: seq<Event>)
    ensures Run(c, es).overflows <= Run(c, es + more).overflows
  {
    hide Run, Exec;
    if more == [] {
      assert es + more == es;
    } else {
      var n := |more| - 1;
      assert es + more == es + more[..n] + [more[n]];
      OverflowsBetween(c, es, more[..n]);
      OverflowsSnoc(c, es + more[..n], more[n]);
    }
  }

  lemma {:induction false} OverflowsFlat(c: Config, es: seq<Event>, more: seq<Event>)
    requires more != [] && Run(c, es + more).overflows == Run(c, es).overflows
    ensures var n := |more| - 1;
            && es + more == es + more[..n] + [more[n]]
            && Run(c, es + more[..n]).overflows == Run(c, es).overflows
  {
    hide Run, Exec;
    var n := |more| - 1;
    assert es + more == es + more[..n] + [more[n]];
    OverflowsBetween(c, es, more[..n]);
    OverflowsSnoc(c, es + more[..n], more[n]);
  }

  /** What has been emitted stays emitted. */
  lemma {:induction false} RunGrows(c: Config, es: seq<Event>, more: seq<Event>)
    ensures Run(c, es).out <= Run(c, es + more).out
  {
    hide Run, Exec;
    if more == [] {
      assert es + more == es;
    } else {
      var n := |more| - 1;
      var s, e := Run(c, es + more[..n]), more[n];
      assert es + more == es + more[..n] + [e];
      RunGrows(c, es, more[..n]);
      RunSnoc(c, es + more[..n], e);
      ExecGrows(c, s, e);
    }
  }

  lemma {:induction false} ExecGrows(c: Config, s: State, e: Event)
    ensures s.out <= Exec(c, s, e).out
  {
    var o := Process(c, s, Record(e, NO_TAP));
    ProcessGrows(c, s, Record(e, NO_TAP));
    DrainGrows(c, if o.done then o.state else Enqueue(o.state, o.rec));
  }

  lemma {:induction false} RunStepSafe(c: Config, es: seq<Event>, e: Event, from: nat, x: Event)
    requires Safe(Run(c, es), from, x) && !x.pressed && from <= |Run(c, es).out|
    requires Run(c, es + [e]).overflows == Run(c, es).overflows
    ensures Safe(Run(c, es + [e]), from, x) && from <= |Run(c, es + [e]).out|
  {
    hide Run, Exec;
    RunSnoc(c, es, e);
    RunKeeps(c, es);
    ExecSafe(c, Run(c, es), e, from, x);
  }

  lemma {:induction false} RunSafe(c: Config, es: seq<Event>, more: seq<Event>, from: nat, x: Event)
    requires Safe(Run(c, es), from, x) && !x.pressed && from <= |Run(c, es).out|
    requires Run(c, es + more).overflows == Run(c, es).overflows
    ensures Safe(Run(c, es + more), from, x) && from <= |Run(c, es + more).out|
  {
    hide Run, Exec;
    if more == [] {
      assert es + more == es;
    } else {
      var n := |more| - 1;
      OverflowsFlat(c, es, more);
      RunSafe(c, es, more[..n], from, x);
      RunStepSafe(c, es + more[..n], more[n], from, x);
    }
  }

  /** A key registered as a single tap is never stranded, even when another tap key takes its place: a release of it,
      marked as that of a tap, waits now, and after any further events (short of an overflow) it still waits marked or
      has been emitted, since then, as the release of a tap. */
  lemma {:induction false} TapIsNeverStranded(c: Config, es: seq<Event>, more: seq<Event>) returns (x: Event)
    requires Run(c, es).tapping.event.pressed && Run(c, es).tapping.tap.count == 1
    requires Run(c, es + more).overflows == Run(c, es).overflows
    ensures !x.pressed && x.key == Run(c, es).tapping.event.key && WaitsMarked(Run(c, es).waiting, x)
    ensures Run(c, es).out <= Run(c, es + more).out
    ensures WaitsMarked(Run(c, es + more).waiting, x) || LetGo(Run(c, es + more).out, |Run(c, es).out|, x)
  {
    RunGrows(c, es, more);
    var s := Run(c, es);
    RunKeeps(c, es);
    var i :| 0 <= i < |s.waiting| && MarkedRelease(s.tapping, s.waiting[i]);
    x := s.waiting[i].event;
    RunSafe(c, es, more, |s.out|, x);
  }
}
