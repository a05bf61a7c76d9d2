/** Repeated taps, said on the events alone: which presses of a tap key repeat its tap, with which count, and which do
    not because they come late or because something else was typed in between. */
module TappingTaps {
  import opened Keys
  import opened Timer
  import opened TappingModel
  import opened TappingRuns

  /** The press and the release of one tap. */
  datatype KeyTap = KeyTap(press: Event, release: Event)

  predicate IsPress(e: Event, k: Key) { !e.IsTick() && e.pressed && e.key == k }

  predicate IsRelease(e: Event, k: Key) { !e.IsTick() && !e.pressed && e.key == k }

  predicate Soon(later: Event, earlier: Event, limit: nat) {
    (later.time - earlier.time) % 0x1_0000 < limit
  }

  /** The events of the first `n` taps. */
  function TapEvents(taps: seq<KeyTap>, n: nat): seq<Event>
    requires n <= |taps|
  {
    if n == 0 then [] else TapEvents(taps, n - 1) + [taps[n - 1].press, taps[n - 1].release]
  }

  /** The `n`-th tap in a row counts `n`, and no more than 15. */
  function Counted(n: nat): Tap { Tap(false, if n < 15 then n else 15) }

  /** The press and the release of the `i`-th tap, as they are delivered. */
  function PressOf(taps: seq<KeyTap>, i: nat): Record
    requires i < |taps|
  {
    Record(taps[i].press, Counted(i + 1))
  }

  function ReleaseOf(taps: seq<KeyTap>, i: nat): Record
    requires i < |taps|
  {
    Record(taps[i].release, Counted(i + 1))
  }

  /** The first press is settled by its release; every later one repeats the tap before it. */
  function Reason(taps: seq<KeyTap>, i: nat): Cause
    requires i < |taps|
  {
    if i == 0 then Tapped(taps[0].release) else Retapped(ReleaseOf(taps, i - 1))
  }

  /** What has been delivered after `n` taps in a row, when `out` had been before. */
  function Played(out: seq<Emission>, taps: seq<KeyTap>, n: nat): seq<Emission>
    requires n <= |taps|
    decreases n, 0
  {
    if n == 0 then out else Pressed(out, taps, n - 1) + [Emission(ReleaseOf(taps, n - 1), Passed)]
  }

  /** The same with the press of tap `n` on top. */
  function Pressed(out: seq<Emission>, taps: seq<KeyTap>, n: nat): seq<Emission>
    requires n < |taps|
    decreases n, 1
  {
    Played(out, taps, n) + [Emission(PressOf(taps, n), Reason(taps, n))]
  }

  /** Press `i` counts as a tap: the first because it is let go of in time, every later one because it follows the last
      release within both terms. */
  predicate Counts(c: Config, out: seq<Emission>, k: Key, taps: seq<KeyTap>, i: nat)
    requires i < |taps|
  {
    && IsPress(taps[i].press, k) && IsRelease(taps[i].release, k)
    && if i == 0 then
         c.isTap(out, k) && Soon(taps[0].release, taps[0].press, c.term(out, k))
       else
         var o := Played(out, taps, i);
         && Soon(taps[i].press, taps[i - 1].release, c.term(o, k))
         && Soon(taps[i].press, taps[i - 1].release, c.quickTapTerm(o, k))
  }

  /** The release of tap `i` comes within the term of its press, so that the tap is remembered. */
  predicate Remembered(c: Config, out: seq<Emission>, k: Key, taps: seq<KeyTap>, i: nat)
    requires i < |taps|
  {
    Soon(taps[i].release, taps[i].press, c.term(Pressed(out, taps, i), k))
  }

  predicate InSuccession(c: Config, out: seq<Emission>, k: Key, taps: seq<KeyTap>, n: nat) {
    && n <= |taps|
    && (forall i :: 0 <= i < n ==> Counts(c, out, k, taps, i))
    && (forall i :: 0 <= i < n - 1 ==> Remembered(c, out, k, taps, i))
  }

  /** Nothing waits, and no key is undecided, repeating or just released that is not another one than `k`. At the start
      of every run this holds. */
  predicate Free(s: State, k: Key) {
    s.waiting == [] && (s.tapping.event.IsTick() || (!s.tapping.event.pressed && s.tapping.event.key != k))
  }

  /** The resolver with nothing waiting. */
  predicate Rests(s: State, t: Record, out: seq<Emission>, overflows: nat) {
    s == State(t, [], out, overflows)
  }

  // ---------------------------------------------------------------- one event at a time

  lemma DrainEmpty(c: Config, s: State)
    requires s.waiting == []
    ensures Drain(c, s) == s
  {
  }

  lemma DrainSingle(c: Config, s: State)
    requires |s.waiting| == 1 && Process(c, s, s.waiting[0]).done
    ensures Drain(c, s) == Process(c, s, s.waiting[0]).state.(waiting := [])
  {
    var o := Process(c, s, s.waiting[0]);
    ProcessKeepsLength(c, s, s.waiting[0]);
    assert o.state.waiting[1..] == [];
    DrainEmpty(c, o.state.(waiting := []));
  }

  /** A call that processes its event at once. */
  lemma ExecDone(c: Config, s: State, e: Event)
    requires s.waiting == [] && Process(c, s, Record(e, NO_TAP)).done
    ensures Exec(c, s, e) == Process(c, s, Record(e, NO_TAP)).state
  {
    ProcessKeepsLength(c, s, Record(e, NO_TAP));
    DrainEmpty(c, Process(c, s, Record(e, NO_TAP)).state);
  }

  /** A call that puts its event off and then processes it. */
  lemma ExecPutOff(c: Config, s: State, e: Event, s1: State)
    requires s.waiting == []
    requires !e.IsTick()
    requires var o := Process(c, s, Record(e, NO_TAP));
             !o.done && s1 == o.state.(waiting := [o.rec]) && Process(c, s1, o.rec).done
    ensures Exec(c, s, e) == Process(c, s1, s1.waiting[0]).state.(waiting := [])
  {
    var o := Process(c, s, Record(e, NO_TAP));
    ProcessKeepsLength(c, s, Record(e, NO_TAP));
    assert o.state.waiting + [o.rec] == [o.rec];
    DrainSingle(c, s1);
  }

  lemma FirstPress(c: Config, s: State, p: Event)
    requires IsPress(p, p.key) && Free(s, p.key) && c.isTap(s.out, p.key)
    ensures Rests(Exec(c, s, p), Record(p, NO_TAP), s.out, s.overflows)
  {
    if s.tapping.event.IsTick() || WithinTappingTerm(c, s, p) {
      ExecDone(c, s, p);
    } else {
      ExecPutOff(c, s, p, s.(tapping := NO_RECORD, waiting := [Record(p, NO_TAP)]));
    }
  }

  lemma FirstRelease(c: Config, s: State, p: Event, r: Event)
    requires IsPress(p, p.key) && IsRelease(r, p.key)
    requires s.waiting == [] && s.tapping == Record(p, NO_TAP) && Soon(r, p, c.term(s.out, p.key))
    ensures var out := s.out + [Emission(Record(p, Tap(false, 1)), Tapped(r))];
            Rests(Exec(c, s, r),
              if Soon(r, p, c.term(out, p.key)) then Record(r, Tap(false, 1)) else NO_RECORD,
              out + [Emission(Record(r, Tap(false, 1)), Passed)], s.overflows)
  {
    var out := s.out + [Emission(Record(p, Tap(false, 1)), Tapped(r))];
    ExecPutOff(c, s, r, State(Record(p, Tap(false, 1)), [Record(r, Tap(false, 1))], out, s.overflows));
  }

  lemma NextPress(c: Config, s: State, t: Record, n: nat, p: Event)
    requires n >= 1 && IsRelease(t.event, p.key) && t.tap == Counted(n) && IsPress(p, p.key)
    requires s.waiting == [] && s.tapping == t
    requires Soon(p, t.event, c.term(s.out, p.key)) && Soon(p, t.event, c.quickTapTerm(s.out, p.key))
    ensures Rests(Exec(c, s, p), Record(p, Counted(n + 1)),
              s.out + [Emission(Record(p, Counted(n + 1)), Retapped(t))], s.overflows)
  {
    ExecDone(c, s, p);
  }

  lemma NextRelease(c: Config, s: State, p: Event, n: nat, r: Event)
    requires n >= 1 && IsPress(p, p.key) && IsRelease(r, p.key)
    requires s.waiting == [] && s.tapping == Record(p, Counted(n))
    ensures Rests(Exec(c, s, r),
              if Soon(r, p, c.term(s.out, p.key)) then Record(r, Counted(n)) else NO_RECORD,
              s.out + [Emission(Record(r, Counted(n)), Passed)], s.overflows)
  {
    ExecDone(c, s, r);
  }

  // ---------------------------------------------------------------- taps in a row

  function AfterTap(c: Config, out: seq<Emission>, k: Key, taps: seq<KeyTap>, i: nat): Record
    requires i < |taps|
  {
    if Remembered(c, out, k, taps, i) then ReleaseOf(taps, i) else NO_RECORD
  }

  lemma RunTwo(c: Config, es: seq<Event>, more: seq<Event>, p: Event, r: Event)
    ensures es + (more + [p, r]) == es + more + [p] + [r]
    ensures Run(c, es + (more + [p, r])) == Exec(c, Exec(c, Run(c, es + more), p), r)
  {
    assert es + (more + [p, r]) == es + more + [p] + [r];
    RunSnoc(c, es + more, p);
    RunSnoc(c, es + more + [p], r);
  }

  /** Taps in a row deliver exactly their presses and releases, in order, each press in its own call from the second on
      and each with its place in the row as its count. */
  lemma {:induction false} TapsRepeat(c: Config, es: seq<Event>, k: Key, taps: seq<KeyTap>, n: nat)
    requires n >= 1 && Free(Run(c, es), k) && InSuccession(c, Run(c, es).out, k, taps, n)
    ensures Rests(Run(c, es + TapEvents(taps, n)), AfterTap(c, Run(c, es).out, k, taps, n - 1),
              Played(Run(c, es).out, taps, n), Run(c, es).overflows)
  {
    var s := Run(c, es);
    var out := s.out;
    var p, r := taps[n - 1].press, taps[n - 1].release;
    RunTwo(c, es, TapEvents(taps, n - 1), p, r);
    assert Counts(c, out, k, taps, n - 1);
    if n == 1 {
      assert es + TapEvents(taps, 0) == es;
      FirstPress(c, s, p);
      FirstRelease(c, Exec(c, s, p), p, r);
    } else {
      TapsRepeat(c, es, k, taps, n - 1);
      assert Counts(c, out, k, taps, n - 2) && Remembered(c, out, k, taps, n - 2);
      var s1 := Run(c, es + TapEvents(taps, n - 1));
      NextPress(c, s1, ReleaseOf(taps, n - 2), n - 1, p);
      NextRelease(c, Exec(c, s1, p), p, n, r);
    }
  }

  // ---------------------------------------------------------------- typing in between

  /** Neither the key `k` nor the press of another tap key. */
  predicate Harmless(c: Config, out: seq<Emission>, k: Key, e: Event) {
    e.IsTick() || (e.key != k && !(e.pressed && c.isTap(out, e.key)))
  }

  /** The first `n` events of `qs`, each delivered as it is; ticks are not delivered. */
  function Passes(qs: seq<Event>, n: nat): seq<Emission>
    requires n <= |qs|
  {
    if n == 0 then []
    else Passes(qs, n - 1) + (if qs[n - 1].IsTick() then [] else [Emission(Record(qs[n - 1], NO_TAP), Passed)])
  }

  predicate AllHarmless(c: Config, out: seq<Emission>, k: Key, qs: seq<Event>) {
    forall i :: 0 <= i < |qs| ==> Harmless(c, out + Passes(qs, i), k, qs[i])
  }

  /** Event `i` of the typing leaves the release `r` of a tap remembered and the row of taps unbroken. */
  predicate Unbroken(c: Config, out: seq<Emission>, k: Key, r: Event, qs: seq<Event>, i: nat)
    requires i < |qs|
  {
    && (qs[i].IsTick() || !qs[i].pressed)
    && Soon(qs[i], r, c.term(out + Passes(qs, i), k))
  }

  predicate AllUnbroken(c: Config, out: seq<Emission>, k: Key, r: Event, qs: seq<Event>, n: nat)
    requires n <= |qs|
  {
    forall i :: 0 <= i < n ==> Unbroken(c, out, k, r, qs, i)
  }

  /** A key that has been let go of, or is down and repeating, or no key at all. */
  predicate Decided(t: Record) { t.event.IsTick() || !t.event.pressed || t.tap.count > 0 }

  /** What one harmless event makes of the key `t`. */
  function Jolt(c: Config, out: seq<Emission>, t: Record, e: Event): Record {
    if t.event.IsTick() || t.event.pressed then t
    else if !Soon(e, t.event, c.term(out, t.event.key)) then NO_RECORD
    else if !e.IsTick() && e.pressed then t.(tap := t.tap.(interrupted := true))
    else t
  }

  /** The key that typing leaves behind is the one it found, or none. */
  predicate Follows(u: Record, k: Key) {
    Decided(u) && (if u.event.IsTick() then u == NO_RECORD else u.event.key == k)
  }

  lemma HarmlessStep(c: Config, s: State, k: Key, e: Event)
    requires s.waiting == [] && Follows(s.tapping, k)
    requires Harmless(c, s.out, k, e)
    ensures Rests(Exec(c, s, e), Jolt(c, s.out, s.tapping, e), s.out + Passes([e], 1), s.overflows)
  {
    assert Passes([e], 1) == if e.IsTick() then [] else [Emission(Record(e, NO_TAP), Passed)];
    var t := s.tapping;
    if !t.event.IsTick() && !t.event.pressed && !WithinTappingTerm(c, s, e) {
      if e.IsTick() {
        DrainEmpty(c, s.(tapping := NO_RECORD));
      } else {
        ExecPutOff(c, s, e, s.(tapping := NO_RECORD, waiting := [Record(e, NO_TAP)]));
      }
    } else {
      ExecDone(c, s, e);
    }
  }

  function Jolted(c: Config, out: seq<Emission>, t: Record, qs: seq<Event>, n: nat): Record
    requires n <= |qs|
  {
    if n == 0 then t else Jolt(c, out + Passes(qs, n - 1), Jolted(c, out, t, qs, n - 1), qs[n - 1])
  }

  lemma PassesLast(out: seq<Emission>, qs: seq<Event>, n: nat)
    requires 0 < n <= |qs|
    ensures out + Passes(qs, n) == out + Passes(qs, n - 1) + Passes([qs[n - 1]], 1)
  {
    assert Passes([qs[n - 1]], 1) == if qs[n - 1].IsTick() then [] else [Emission(Record(qs[n - 1], NO_TAP), Passed)];
  }

  lemma HarmlessNext(c: Config, out: seq<Emission>, k: Key, t: Record, qs: seq<Event>, n: nat, s: State)
    requires 0 < n <= |qs| && Follows(Jolted(c, out, t, qs, n - 1), k)
    requires Rests(s, Jolted(c, out, t, qs, n - 1), out + Passes(qs, n - 1), s.overflows)
    requires Harmless(c, out + Passes(qs, n - 1), k, qs[n - 1])
    ensures Follows(Jolted(c, out, t, qs, n), k)
    ensures Rests(Exec(c, s, qs[n - 1]), Jolted(c, out, t, qs, n), out + Passes(qs, n), s.overflows)
  {
    hide Exec;
    HarmlessStep(c, s, k, qs[n - 1]);
    PassesLast(out, qs, n);
  }

  lemma {:induction false} HarmlessRun(c: Config, es: seq<Event>, k: Key, t: Record, qs: seq<Event>, n: nat)
    requires n <= |qs| && Follows(t, k)
    requires Rests(Run(c, es), t, Run(c, es).out, Run(c, es).overflows) && AllHarmless(c, Run(c, es).out, k, qs)
    ensures var u := Jolted(c, Run(c, es).out, t, qs, n);
            && Follows(u, k)
            && Rests(Run(c, es + qs[..n]), u, Run(c, es).out + Passes(qs, n), Run(c, es).overflows)
  {
    hide Run, Exec;
    var out := Run(c, es).out;
    if n == 0 {
      assert es + qs[..0] == es;
      assert out + Passes(qs, 0) == out;
    } else {
      HarmlessRun(c, es, k, t, qs, n - 1);
      assert es + qs[..n] == es + qs[..n - 1] + [qs[n - 1]];
      RunSnoc(c, es + qs[..n - 1], qs[n - 1]);
      assert Harmless(c, out + Passes(qs, n - 1), k, qs[n - 1]);
      HarmlessNext(c, out, k, t, qs, n, Run(c, es + qs[..n - 1]));
    }
  }

  /** The release stays remembered, and uninterrupted, exactly while nothing breaks the row. */
  lemma {:induction false} JoltedExactly(c: Config, out: seq<Emission>, r: Record, qs: seq<Event>, n: nat)
    requires n <= |qs| && IsRelease(r.event, r.event.key) && !r.tap.interrupted
    ensures var u := Jolted(c, out, r, qs, n);
            if AllUnbroken(c, out, r.event.key, r.event, qs, n) then u == r
            else u == NO_RECORD || u == r.(tap := r.tap.(interrupted := true))
  {
    if n > 0 {
      JoltedExactly(c, out, r, qs, n - 1);
      if AllUnbroken(c, out, r.event.key, r.event, qs, n) {
        assert Unbroken(c, out, r.event.key, r.event, qs, n - 1);
        assert AllUnbroken(c, out, r.event.key, r.event, qs, n - 1);
      } else if AllUnbroken(c, out, r.event.key, r.event, qs, n - 1) {
        assert !Unbroken(c, out, r.event.key, r.event, qs, n - 1);
      }
    }
  }

  lemma {:induction false} JoltedNone(c: Config, out: seq<Emission>, qs: seq<Event>, n: nat)
    requires n <= |qs|
    ensures Jolted(c, out, NO_RECORD, qs, n) == NO_RECORD
  {
    if n > 0 {
      JoltedNone(c, out, qs, n - 1);
    }
  }

  /** A press of the tap key that does not go on with a row of taps delivers nothing. */
  lemma PressStarts(c: Config, s: State, p: Event)
    requires IsPress(p, p.key) && c.isTap(s.out, p.key) && s.waiting == []
    requires s.tapping == NO_RECORD
          || (IsRelease(s.tapping.event, p.key)
              && (s.tapping.tap.interrupted || !Soon(p, s.tapping.event, c.term(s.out, p.key))
                  || !Soon(p, s.tapping.event, c.quickTapTerm(s.out, p.key))))
    ensures Rests(Exec(c, s, p), Record(p, NO_TAP), s.out, s.overflows)
  {
    if s.tapping.event.IsTick() || WithinTappingTerm(c, s, p) {
      ExecDone(c, s, p);
    } else {
      ExecPutOff(c, s, p, s.(tapping := NO_RECORD, waiting := [Record(p, NO_TAP)]));
    }
  }

  /** The press after `n` taps in a row and some harmless typing goes on with the row. */
  predicate GoesOn(c: Config, out: seq<Emission>, k: Key, taps: seq<KeyTap>, n: nat, qs: seq<Event>, p: Event)
    requires 1 <= n <= |taps|
  {
    var r := taps[n - 1].release;
    var o := Played(out, taps, n) + Passes(qs, |qs|);
    && Remembered(c, out, k, taps, n - 1)
    && AllUnbroken(c, Played(out, taps, n), k, r, qs, |qs|)
    && Soon(p, r, c.term(o, k)) && Soon(p, r, c.quickTapTerm(o, k))
  }

  /** After `n` taps in a row and some harmless typing, which is all delivered as it is, one more press of the key is
      delivered at once, with count `n + 1` (and never more than 15), exactly if it goes on with the row: the last release
      came in time, no other key went down since, no event came after the term of the release, and the press comes
      within both terms of it. Any other press delivers nothing yet and starts a new row. */
  lemma {:induction false} NextTapExact(c: Config, es: seq<Event>, k: Key, taps: seq<KeyTap>, n: nat, qs: seq<Event>, p: Event)
    requires n >= 1 && Free(Run(c, es), k) && InSuccession(c, Run(c, es).out, k, taps, n)
    requires AllHarmless(c, Played(Run(c, es).out, taps, n), k, qs) && IsPress(p, k)
    requires c.isTap(Played(Run(c, es).out, taps, n) + Passes(qs, |qs|), k)
    ensures var out := Run(c, es).out;
            var o := Played(out, taps, n) + Passes(qs, |qs|);
            var before := es + TapEvents(taps, n) + qs;
            && Run(c, before).out == o
            && if GoesOn(c, out, k, taps, n, qs, p) then
                 Rests(Run(c, before + [p]), Record(p, Counted(n + 1)),
                   o + [Emission(Record(p, Counted(n + 1)), Retapped(ReleaseOf(taps, n - 1)))], Run(c, es).overflows)
               else
                 Rests(Run(c, before + [p]), Record(p, NO_TAP), o, Run(c, es).overflows)
  {
    var out := Run(c, es).out;
    var played := Played(out, taps, n);
    var es1 := es + TapEvents(taps, n);
    var t := AfterTap(c, out, k, taps, n - 1);
    TapsRepeat(c, es, k, taps, n);
    assert Counts(c, out, k, taps, n - 1);
    HarmlessRun(c, es1, k, t, qs, |qs|);
    assert qs[..|qs|] == qs;
    RunSnoc(c, es1 + qs, p);
    var s := Run(c, es1 + qs);
    if Remembered(c, out, k, taps, n - 1) {
      JoltedExactly(c, played, t, qs, |qs|);
    } else {
      JoltedNone(c, played, qs, |qs|);
    }
    if GoesOn(c, out, k, taps, n, qs, p) {
      NextPress(c, s, t, n, p);
    } else {
      PressStarts(c, s, p);
    }
  }

  // ---------------------------------------------------------------- a tap key that stays down

  /** A key that is down for the `n`-th time in a row lets all harmless typing through; its release is delivered with its
      count, and when another tap key goes down first, a release is made up for a key tapped more than once. */
  lemma {:induction false} RepeatingKey(c: Config, es: seq<Event>, k: Key, n: nat, p: Event, qs: seq<Event>, e: Event)
    requires n >= 1 && IsPress(p, k) && AllHarmless(c, Run(c, es).out, k, qs)
    requires Rests(Run(c, es), Record(p, Counted(n)), Run(c, es).out, Run(c, es).overflows)
    ensures var o := Run(c, es).out + Passes(qs, |qs|);
            var after := Run(c, es + qs + [e]);
            && Run(c, es + qs).out == o
            && (IsRelease(e, k) ==>
                  && after.out == o + [Emission(Record(e, Counted(n)), Passed)] && after.waiting == []
                  && after.tapping == (if Soon(e, p, c.term(o, k)) then Record(e, Counted(n)) else NO_RECORD))
            && (IsPress(e, e.key) && c.isTap(o, e.key) ==>
                  Rests(after, Record(e, NO_TAP),
                    o + (if n == 1 then []
                         else [Emission(Record(Event(k, e.time, p.kind, false), Counted(n)), Synthesised)]),
                    Run(c, es).overflows))
  {
    HarmlessRun(c, es, k, Record(p, Counted(n)), qs, |qs|);
    assert qs[..|qs|] == qs;
    JoltedDown(c, Run(c, es).out, Record(p, Counted(n)), qs, |qs|);
    RunSnoc(c, es + qs, e);
    RepeatingStep(c, Run(c, es + qs), n, p, e);
  }

  lemma {:induction false} JoltedDown(c: Config, out: seq<Emission>, t: Record, qs: seq<Event>, n: nat)
    requires n <= |qs| && t.event.pressed
    ensures Jolted(c, out, t, qs, n) == t
  {
    if n > 0 {
      JoltedDown(c, out, t, qs, n - 1);
    }
  }

  lemma RepeatingStep(c: Config, s: State, n: nat, p: Event, e: Event)
    requires n >= 1 && IsPress(p, p.key) && s.waiting == [] && s.tapping == Record(p, Counted(n))
    ensures IsRelease(e, p.key) ==>
              Rests(Exec(c, s, e), if Soon(e, p, c.term(s.out, p.key)) then Record(e, Counted(n)) else NO_RECORD,
                s.out + [Emission(Record(e, Counted(n)), Passed)], s.overflows)
    ensures IsPress(e, e.key) && c.isTap(s.out, e.key) ==>
              Rests(Exec(c, s, e), Record(e, NO_TAP),
                s.out + (if n == 1 then []
                         else [Emission(Record(Event(p.key, e.time, p.kind, false), Counted(n)), Synthesised)]),
                s.overflows)
  {
    if IsRelease(e, p.key) {
      NextRelease(c, s, p, n, e);
    } else if IsPress(e, e.key) && c.isTap(s.out, e.key) {
      ExecDone(c, s, e);
    }
  }
}
