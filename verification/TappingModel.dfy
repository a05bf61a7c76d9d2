/** The tap/hold resolver of quantum/action_tapping.c as a function on values: the meaning that the
    imperative resolver in `Tapping` is proved to have, and that `TappingRuns` proves theorems about. */
module TappingModel {
  import opened Keys
  import opened Timer

  const WAITING_BUFFER_SIZE: nat := 8
  const MAX_TAP_COUNT: nat := 15

  datatype EventType = TickEvent | KeyEvent | EncoderCwEvent | EncoderCcwEvent | ComboEvent
                     | DipSwitchOnEvent | DipSwitchOffEvent

  datatype Event = Event(key: Key, time: nat, kind: EventType, pressed: bool) {
    predicate IsTick() { kind.TickEvent? }
  }

  datatype Tap = Tap(interrupted: bool, count: nat)

  datatype Record = Record(event: Event, tap: Tap)

  const NO_TAP := Tap(false, 0)
  const NO_RECORD := Record(Event(Key(0, 0), 0, TickEvent, false), NO_TAP)

  /** Why a record was handed to `process_record`. */
  datatype Cause =
    | Passed                  // an ordinary record, or the release of a tap
    | Tapped(on: Event)       // an undecided key, settled as a tap by this release
    | Held(on: Event)         // an undecided key, settled as a hold by this late event or tick
    | Interfered(on: Event)   // an undecided key, settled as a hold by this other key
    | Retapped(after: Record)  // a further tap of the same key, soon after this release
    | Synthesised             // a release made up to let go of a repeated tap

  datatype Emission = Emission(rec: Record, why: Cause)

  /** Everything the resolver asks the rest of the firmware. Each answer may depend on what has been
      emitted so far (the layer state does) as well as on the key. */
  datatype Config = Config(
    isTap: (seq<Emission>, Key) -> bool,
    term: (seq<Emission>, Key) -> nat,
    quickTapTerm: (seq<Emission>, Key) -> nat,
    permissiveHold: (seq<Emission>, Key) -> bool,
    holdOnOtherKeyPress: (seq<Emission>, Key) -> bool,
    retainsRelease: (seq<Emission>, Record) -> bool)

  /** `tapping_key`, the waiting ring oldest first, what `process_record` was given, and how often the
      ring overflowed. */
  datatype State = State(tapping: Record, waiting: seq<Record>, out: seq<Emission>, overflows: nat) {
    function Emit(r: Record, why: Cause): State {
      this.(out := out + [Emission(r, why)])
    }
  }

  const INITIAL := State(NO_RECORD, [], [], 0)

  /** What `process_tapping` leaves behind; `rec` is the possibly updated record it was given. */
  datatype Outcome = Outcome(state: State, done: bool, rec: Record)

  predicate SameKey(a: Record, b: Record) { a.event.key == b.event.key }

  predicate WithinTappingTerm(c: Config, s: State, e: Event) {
    TimerDiff16(e.time, s.tapping.event.time) < c.term(s.out, s.tapping.event.key)
  }

  predicate WithinQuickTapTerm(c: Config, s: State, e: Event) {
    TimerDiff16(e.time, s.tapping.event.time) < c.quickTapTerm(s.out, s.tapping.event.key)
  }

  predicate Undecided(t: Record) {
    !t.event.IsTick() && t.event.pressed && t.tap.count == 0
  }

  /** `waiting_buffer_typed`. */
  predicate Typed(waiting: seq<Record>, e: Event) {
    exists i :: 0 <= i < |waiting| && waiting[i].event.key == e.key && waiting[i].event.pressed != e.pressed
  }

  predicate SettlesAsTap(c: Config, s: State, candidate: Record) {
    && !candidate.event.IsTick()
    && SameKey(candidate, s.tapping)
    && !candidate.event.pressed
    && WithinTappingTerm(c, s, candidate.event)
  }

  /** The first position at or after `from` whose record settles the tapping key as a tap. */
  function FindRelease(c: Config, s: State, from: nat): (i: nat)
    requires from <= |s.waiting|
    ensures from <= i <= |s.waiting|
    ensures i < |s.waiting| ==> SettlesAsTap(c, s, s.waiting[i])
    ensures forall j :: from <= j < i ==> !SettlesAsTap(c, s, s.waiting[j])
    decreases |s.waiting| - from
  {
    if from == |s.waiting| || SettlesAsTap(c, s, s.waiting[from]) then from
    else FindRelease(c, s, from + 1)
  }

  function SettleWith(s: State, i: nat): State
    requires i < |s.waiting|
  {
    var t := s.tapping.(tap := s.tapping.tap.(count := 1));
    var w := s.waiting[i];
    s.(tapping := t, waiting := s.waiting[i := w.(tap := w.tap.(count := 1))]).Emit(t, Tapped(w.event))
  }

  /** `waiting_buffer_scan_tap`. */
  function ScanTap(c: Config, s: State): State {
    if s.tapping.tap.count > 0 || !s.tapping.event.pressed then s
    else
      var i := FindRelease(c, s, 0);
      if i == |s.waiting| then s else SettleWith(s, i)
  }

  /** `tapping_key = *keyp; waiting_buffer_scan_tap();` */
  function StartTap(c: Config, s: State, r: Record): State {
    ScanTap(c, s.(tapping := r))
  }

  /** No tapping key. */
  function ProcessIdle(c: Config, s: State, r: Record): Outcome {
    if r.event.IsTick() then Outcome(s, true, r)
    else if r.event.pressed && c.isTap(s.out, r.event.key) then Outcome(StartTap(c, s, r), true, r)
    else Outcome(s.Emit(r, Passed), true, r)
  }

  /** Tapping key down and undecided, event within the tapping term. */
  function ProcessUndecided(c: Config, s: State, r: Record): Outcome {
    var t := s.tapping;
    if SameKey(t, r) && !r.event.pressed then
      var tapped := t.(tap := t.tap.(count := 1));
      Outcome(s.(tapping := tapped).Emit(tapped, Tapped(r.event)), false, r.(tap := tapped.tap))
    else if !r.event.pressed && Typed(s.waiting, r.event) && c.permissiveHold(s.out, t.event.key) then
      Outcome(s.Emit(t, Interfered(r.event)).(tapping := NO_RECORD), false, r)
    else if !r.event.pressed && !Typed(s.waiting, r.event) then
      if c.retainsRelease(s.out, r) then Outcome(s, false, r)
      else Outcome(s.Emit(r, Passed), true, r)
    else if r.event.pressed then
      var t' := t.(tap := t.tap.(interrupted := true));
      if c.holdOnOtherKeyPress(s.out, t.event.key) then
        Outcome(s.Emit(t', Interfered(r.event)).(tapping := NO_RECORD), false, r)
      else Outcome(s.(tapping := t'), false, r)
    else Outcome(s, false, r)
  }

  /** The release made up for a tapping key that has been tapped more than once. */
  function MadeUpRelease(t: Record, time: nat): Record {
    Record(Event(t.event.key, time, t.event.kind, false), t.tap)
  }

  /** Another tap key goes down while the tapping key is down and tapped. */
  function StartOverTap(c: Config, s: State, r: Record): State {
    StartTap(c,
      if s.tapping.tap.count > 1 then s.Emit(MadeUpRelease(s.tapping, r.event.time), Synthesised) else s, r)
  }

  /** Tapping key down and tapped at least once. */
  function ProcessTapped(c: Config, s: State, r: Record, within: bool): Outcome {
    if r.event.IsTick() then Outcome(s, true, r)
    else if SameKey(s.tapping, r) && !r.event.pressed then
      var r' := r.(tap := s.tapping.tap);
      Outcome(s.Emit(r', Passed).(tapping := if within then r' else NO_RECORD), true, r')
    else if c.isTap(s.out, r.event.key) && r.event.pressed then Outcome(StartOverTap(c, s, r), true, r)
    else Outcome(s.Emit(r, Passed), true, r)
  }

  function NextTap(t: Tap): Tap {
    if t.count < MAX_TAP_COUNT then t.(count := t.count + 1) else t
  }

  /** Tapping key released. */
  function ProcessReleased(c: Config, s: State, r: Record): Outcome {
    if !WithinTappingTerm(c, s, r.event) then Outcome(s.(tapping := NO_RECORD), false, r)
    else if r.event.IsTick() then Outcome(s, true, r)
    else if !r.event.pressed then Outcome(s.Emit(r, Passed), true, r)
    else if SameKey(s.tapping, r) then
      if WithinQuickTapTerm(c, s, r.event) && !s.tapping.tap.interrupted && s.tapping.tap.count > 0 then
        var r' := r.(tap := NextTap(s.tapping.tap));
        Outcome(s.Emit(r', Retapped(s.tapping)).(tapping := r'), true, r')
      else Outcome(s.(tapping := r), true, r)
    else if c.isTap(s.out, r.event.key) then Outcome(StartTap(c, s, r), true, r)
    else
      Outcome(s.(tapping := s.tapping.(tap := s.tapping.tap.(interrupted := true))).Emit(r, Passed), true, r)
  }

  /** `process_tapping`: `done` when the record has been processed or consumed. */
  function Process(c: Config, s: State, r: Record): Outcome {
    var t := s.tapping;
    if t.event.IsTick() then ProcessIdle(c, s, r)
    else if !t.event.pressed then ProcessReleased(c, s, r)
    else
      var within := WithinTappingTerm(c, s, r.event);
      if t.tap.count > 0 then ProcessTapped(c, s, r, within)
      else if !within then Outcome(s.Emit(t, Held(r.event)).(tapping := NO_RECORD), false, r)
      else if r.event.IsTick() then Outcome(s, true, r)
      else ProcessUndecided(c, s, r)
  }

  /** `waiting_buffer_enq`, and the clearing of all state when it reports an overflow. */
  function Enqueue(s: State, r: Record): State {
    if r.event.IsTick() then s
    else if |s.waiting| >= WAITING_BUFFER_SIZE - 1 then State(NO_RECORD, [], s.out, s.overflows + 1)
    else s.(waiting := s.waiting + [r])
  }

  /** The loop that re-processes the waiting ring. */
  function Drain(c: Config, s: State): State
    decreases |s.waiting|
  {
    if s.waiting == [] then s
    else
      var o := Process(c, s, s.waiting[0]);
      ProcessKeepsLength(c, s, s.waiting[0]);
      if o.done then Drain(c, o.state.(waiting := o.state.waiting[1..]))
      else o.state.(waiting := o.state.waiting[0 := o.rec])
  }

  /** `action_tapping_process` on the record that `action_exec` builds for an event. */
  function Exec(c: Config, s: State, e: Event): State {
    var o := Process(c, s, Record(e, NO_TAP));
    Drain(c, if o.done then o.state else Enqueue(o.state, o.rec))
  }

  /** The state after a whole sequence of events and ticks. */
  function Run(c: Config, es: seq<Event>): State {
    if es == [] then INITIAL else Exec(c, Run(c, es[..|es| - 1]), es[|es| - 1])
  }

  lemma ProcessKeepsLength(c: Config, s: State, r: Record)
    ensures |Process(c, s, r).state.waiting| == |s.waiting|
  {
  }
}
