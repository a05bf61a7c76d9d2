/** The quadrature decoder of drivers/encoder/encoder_quadrature.c (without `ENCODER_DEFAULT_POS`), on
    values, and the conservation laws of its pulses. */
module QuadratureModel {

  /** Pad A in bit 0, pad B in bit 1. */
  type Pins = p: nat | p < 4

  /** The table `encoder_LUT`: 0, -1, 1, 0, 1, 0, 0, -1, -1, 0, 0, 1, 0, 1, -1, 0. */
  function EncoderLut(i: nat): (d: int)
    requires i < 16
    ensures -1 <= d <= 1
  {
    if i == 1 || i == 7 || i == 8 || i == 14 then -1
    else if i == 2 || i == 4 || i == 11 || i == 13 then 1
    else 0
  }

  function Delta(from: Pins, to: Pins): (d: int)
    ensures -1 <= d <= 1
  {
    EncoderLut(4 * from + to)
  }

  /** Conversion to int8_t. */
  function Int8(x: int): (r: int)
    ensures -128 <= r <= 127
  {
    (x + 128) % 256 - 128
  }

  function RemNat(a: nat, b: int): nat
    requires b > 0
    decreases a
  {
    if a < b then a else RemNat(a - b, b)
  }

  /** C's `%`, whose result has the sign of the dividend. */
  function Rem(a: int, b: int): (r: int)
    requires b > 0
  {
    if a >= 0 then RemNat(a, b) else 0 - RemNat(-a, b)
  }

  /** It is the remainder of the division that truncates towards zero. */
  lemma {:induction false} RemIsRemainder(a: nat, b: int)
    requires b > 0
    ensures RemNat(a, b) < b && exists q: nat :: a == q * b + RemNat(a, b)
    decreases a
  {
    if a < b {
      assert a == 0 * b + a;
    } else {
      RemIsRemainder(a - b, b);
      var q: nat :| a - b == q * b + RemNat(a - b, b);
      assert a == (q + 1) * b + RemNat(a, b);
    }
  }

  /** `encoder_state` and `encoder_pulses` of one encoder, and how many events it has produced. */
  datatype State = State(history: nat, pulses: int, ccw: nat, cw: nat)

  /** The pins last seen. */
  function Seen(s: State): Pins { s.history % 4 }

  /** `encoder_handle_state_change`. */
  function HandleStateChange(resolution: int, s: State): State
    requires resolution > 0
  {
    var p := Int8(s.pulses + EncoderLut(s.history % 16));
    State(s.history, Rem(p, resolution), s.ccw + (if p >= resolution then 1 else 0),
          s.cw + (if p <= -resolution then 1 else 0))
  }

  /** `state <<= 2; state |= pins`, in uint8_t. */
  function Shift(history: nat, pins: Pins): (h: nat)
    ensures h < 256
  {
    4 * (history % 64) + pins
  }

  /** `encoder_quadrature_handle_read`. */
  function HandleRead(resolution: int, s: State, pins: Pins): State
    requires resolution > 0
  {
    if Seen(s) == pins then s
    else HandleStateChange(resolution, s.(history := Shift(s.history, pins)))
  }

  /** The decoder after it was initialised on `path[0]` and then read `path[1]` to `path[n]`. */
  function Run(resolution: int, path: seq<Pins>, n: nat): State
    requires resolution > 0 && n < |path|
  {
    if n == 0 then State(path[0], 0, 0, 0) else HandleRead(resolution, Run(resolution, path, n - 1), path[n])
  }

  /** The sum of the table deltas of the first `n` steps of a path. */
  function Turn(path: seq<Pins>, n: nat): int
    requires n < |path|
  {
    if n == 0 then 0 else Turn(path, n - 1) + Delta(path[n - 1], path[n])
  }

  lemma DeltaOfHistory(h: nat, pins: Pins)
    ensures EncoderLut(Shift(h, pins) % 16) == Delta(h % 4, pins)
    ensures Shift(h, pins) % 4 == pins
  {
    var r := h % 64;
    var s, t := r / 4, r % 4;
    assert h == 4 * (16 * (h / 64) + s) + t;
    Remainders(16 * (h / 64) + s, t);
    Remainders(4 * s + t, pins);
    assert Shift(h, pins) == 16 * s + (4 * t + pins);
    Remainder16(s, 4 * t + pins);
  }

  lemma Remainders(q: nat, r: nat)
    requires r < 4
    ensures (4 * q + r) % 4 == r
  {
  }

  lemma Remainder16(q: nat, r: nat)
    requires r < 16
    ensures (16 * q + r) % 16 == r
  {
  }

  lemma SeenIsLast(resolution: int, path: seq<Pins>, n: nat)
    requires resolution > 0 && n < |path|
    ensures Seen(Run(resolution, path, n)) == path[n]
  {
    if n > 0 {
      DeltaOfHistory(Run(resolution, path, n - 1).history, path[n]);
    }
  }

  /** `n` steps of `resolution` pulses. */
  function Steps(resolution: int, n: nat): int {
    if n == 0 then 0 else Steps(resolution, n - 1) + resolution
  }

  lemma {:induction false} StepsIsProduct(resolution: int, n: nat)
    ensures Steps(resolution, n) == resolution * n
  {
    if n > 0 {
      StepsIsProduct(resolution, n - 1);
    }
  }

  /** The pulses not yet reported are fewer than a step, and everything turned is reported or pending. */
  predicate Conserved(resolution: int, s: State, turn: int) {
    && -resolution < s.pulses < resolution
    && turn == Steps(resolution, s.ccw) - Steps(resolution, s.cw) + s.pulses
  }

  lemma RemSmall(a: int, b: int)
    requires 0 < b && -b <= a <= b
    ensures Rem(a, b) == if -b < a < b then a else 0
  {
    assert RemNat(0, b) == 0;
    assert RemNat(b, b) == RemNat(0, b);
  }

  lemma StepConserves(resolution: int, s: State, turn: int, d: int)
    requires 0 < resolution <= 127 && -1 <= d <= 1
    requires EncoderLut(s.history % 16) == d && Conserved(resolution, s, turn)
    ensures Conserved(resolution, HandleStateChange(resolution, s), turn + d)
  {
    assert Int8(s.pulses + d) == s.pulses + d;
    RemSmall(s.pulses + d, resolution);
  }

  /** For resolutions up to 127, after every sample of every run, the deltas add up to the surplus of
      counter-clockwise over clockwise events, in pulses, plus the pulses still pending. */
  lemma {:induction false} Conservation(resolution: int, path: seq<Pins>, n: nat)
    requires 0 < resolution <= 127 && n < |path|
    ensures Conserved(resolution, Run(resolution, path, n), Turn(path, n))
  {
    if n > 0 {
      var s := Run(resolution, path, n - 1);
      Conservation(resolution, path, n - 1);
      SeenIsLast(resolution, path, n - 1);
      DeltaOfHistory(s.history, path[n]);
      if Seen(s) == path[n] {
        NoChangeNoDelta(path[n]);
      } else {
        StepConserves(resolution, s.(history := Shift(s.history, path[n])), Turn(path, n - 1),
                      Delta(path[n - 1], path[n]));
      }
    }
  }

  lemma NoChangeNoDelta(pins: Pins)
    ensures Delta(pins, pins) == 0
  {
  }

  // ---------------------------------------------------------------- resolutions that do not fit int8_t

  /** Every step of the path is a counter-clockwise one. */
  ghost predicate OneWay(path: seq<Pins>) {
    forall i :: 0 < i < |path| ==> Delta(path[i - 1], path[i]) == 1
  }

  function NextPins(pins: Pins): (p: Pins)
    ensures Delta(pins, p) == 1
  {
    if pins == 0 then 2 else if pins == 2 then 3 else if pins == 3 then 1 else 0
  }

  function Forward(n: nat): (path: seq<Pins>)
    ensures |path| == n + 1 && OneWay(path)
  {
    if n == 0 then [0]
    else
      var path := Forward(n - 1);
      path + [NextPins(path[n - 1])]
  }

  lemma RunStep(resolution: int, path: seq<Pins>, n: nat)
    requires resolution > 0 && 0 < n < |path|
    ensures Run(resolution, path, n) == HandleRead(resolution, Run(resolution, path, n - 1), path[n])
  {
  }

  lemma ReadChanges(resolution: int, s: State, pins: Pins)
    requires resolution > 0 && Delta(Seen(s), pins) == 1
    ensures var s' := s.(history := Shift(s.history, pins));
            HandleRead(resolution, s, pins) == HandleStateChange(resolution, s') && EncoderLut(s'.history % 16) == 1
  {
    NoChangeNoDelta(pins);
    DeltaOfHistory(s.history, pins);
  }

  lemma OneWayStep(resolution: int, path: seq<Pins>, n: nat)
    requires resolution > 0 && 0 < n < |path| && OneWay(path)
    ensures var s := Run(resolution, path, n - 1);
            var s' := s.(history := Shift(s.history, path[n]));
            && Run(resolution, path, n) == HandleStateChange(resolution, s') && EncoderLut(s'.history % 16) == 1
            && Turn(path, n) == Turn(path, n - 1) + 1
  {
    SeenIsLast(resolution, path, n - 1);
    RunStep(resolution, path, n);
    TurnStep(path, n);
    ReadChanges(resolution, Run(resolution, path, n - 1), path[n]);
  }

  lemma OneMorePulse(resolution: int, s: State)
    requires resolution >= 128 && 0 <= s.pulses <= 126 && EncoderLut(s.history % 16) == 1
    ensures HandleStateChange(resolution, s) == s.(pulses := s.pulses + 1)
  {
    RemSmall(s.pulses + 1, resolution);
  }

  lemma {:induction false} OneWayPulses(resolution: int, path: seq<Pins>, n: nat)
    requires resolution >= 128 && n < |path| && n <= 127 && OneWay(path)
    ensures var s := Run(resolution, path, n);
            s.pulses == n && s.ccw == 0 && s.cw == 0 && Turn(path, n) == n
  {
    if n > 0 {
      var s := Run(resolution, path, n - 1);
      OneWayPulses(resolution, path, n - 1);
      OneWayStep(resolution, path, n);
      OneMorePulse(resolution, s.(history := Shift(s.history, path[n])));
    }
  }

  /** With a resolution above 127 the 128th step in one direction wraps the pulse count, and the law fails;
      so it holds in all runs exactly for resolutions 1 to 127. */
  lemma ConservationFails(resolution: int, n: nat)
    requires 128 <= resolution && n == 128
    ensures !Conserved(resolution, Run(resolution, Forward(n), n), Turn(Forward(n), n))
  {
    var path := Forward(n);
    OneWayPulses(resolution, path, n - 1);
    OneWayStep(resolution, path, n);
    RemSmall(-128, resolution);
    assert Steps(resolution, 1) == Steps(resolution, 0) + resolution;
  }

  // ---------------------------------------------------------------- phase

  /** The phase of the Gray code that the table counts along. */
  function Phase(pins: Pins): (ph: nat)
    ensures ph < 4
  {
    if pins == 0 then 0 else if pins == 2 then 1 else if pins == 3 then 2 else 3
  }

  /** At most one pin differs. */
  predicate Adjacent(a: Pins, b: Pins) {
    a % 2 == b % 2 || a / 2 == b / 2
  }

  ghost predicate OnePinAtATime(path: seq<Pins>) {
    forall i :: 0 < i < |path| ==> Adjacent(path[i - 1], path[i])
  }

  lemma DeltaIsPhaseStep(a: Pins, b: Pins)
    requires Adjacent(a, b)
    ensures (Phase(b) - Phase(a) - Delta(a, b)) % 4 == 0
  {
  }

  lemma CyclesAdd(x: int, y: int)
    requires x % 4 == 0 && y % 4 == 0
    ensures (x + y) % 4 == 0
  {
  }

  /** While one pin changes at a time, the sum of the deltas is the change of phase, modulo a full cycle. */
  lemma {:induction false} TurnIsPhase(path: seq<Pins>, n: nat)
    requires n < |path| && OnePinAtATime(path)
    ensures (Phase(path[n]) - Phase(path[0]) - Turn(path, n)) % 4 == 0
  {
    if n > 0 {
      TurnIsPhase(path, n - 1);
      DeltaIsPhaseStep(path[n - 1], path[n]);
      CyclesAdd(Phase(path[n - 1]) - Phase(path[0]) - Turn(path, n - 1),
                Phase(path[n]) - Phase(path[n - 1]) - Delta(path[n - 1], path[n]));
    }
  }

  /** How many of the first `n` steps move the phase by `d`, modulo a full cycle. */
  function StepsBy(path: seq<Pins>, n: nat, d: nat): nat
    requires n < |path|
  {
    if n == 0 then 0 else StepsBy(path, n - 1, d) + (if PhaseStep(path[n - 1], path[n]) == d then 1 else 0)
  }

  /** How far the phase moves on, modulo a full cycle. */
  function PhaseStep(a: Pins, b: Pins): nat {
    if Phase(a) <= Phase(b) then Phase(b) - Phase(a) else Phase(b) + 4 - Phase(a)
  }

  /** On any path the deltas count the steps one phase on, less those one phase back: no change, and a change of both pins
      at once, count nothing. */
  lemma {:induction false} TurnCountsSteps(path: seq<Pins>, n: nat)
    requires n < |path|
    ensures Turn(path, n) == StepsBy(path, n, 1) - StepsBy(path, n, 3)
  {
    hide Delta, PhaseStep;
    if n > 0 {
      TurnCountsSteps(path, n - 1);
      DeltaExact(path[n - 1], path[n]);
    }
  }

  lemma DeltaExact(a: Pins, b: Pins)
    ensures Delta(a, b) == match PhaseStep(a, b) case 1 => 1 case 3 => -1 case _ => 0
  {
  }

  // ---------------------------------------------------------------- turning back

  /** `r` is the path, and then the same path backwards. */
  ghost predicate ThereAndBack(path: seq<Pins>, r: seq<Pins>) {
    && path != [] && |r| == 2 * |path| - 1
    && (forall i :: 0 <= i < |path| ==> r[i] == path[i])
    && forall i :: |path| <= i < |r| ==> r[i] == path[|r| - 1 - i]
  }

  lemma DeltaBack(a: Pins, b: Pins)
    ensures Delta(b, a) == -Delta(a, b)
  {
  }

  lemma {:induction false} SameTurn(a: seq<Pins>, b: seq<Pins>, n: nat)
    requires n < |a| && n < |b| && forall i :: 0 <= i <= n ==> a[i] == b[i]
    ensures Turn(a, n) == Turn(b, n)
  {
    if n > 0 {
      SameTurn(a, b, n - 1);
    }
  }

  lemma TurnStep(path: seq<Pins>, n: nat)
    requires 0 < n < |path|
    ensures Turn(path, n) == Turn(path, n - 1) + Delta(path[n - 1], path[n])
  {
  }

  lemma MirroredDelta(path: seq<Pins>, r: seq<Pins>, m: nat, j: nat)
    requires ThereAndBack(path, r) && |path| == m + 1 && 0 < j <= m
    ensures Delta(r[m + j - 1], r[m + j]) == -Delta(path[m - j], path[m - j + 1])
  {
    assert r[m + j] == path[m - j] && r[m + j - 1] == path[m - j + 1];
    DeltaBack(path[m - j], path[m - j + 1]);
  }

  /** Going back undoes the turn, step by step. */
  lemma {:induction false} TurnBack(path: seq<Pins>, r: seq<Pins>, m: nat, j: nat)
    requires ThereAndBack(path, r) && |path| == m + 1 && j <= m
    ensures Turn(r, m + j) == Turn(path, m - j)
  {
    if j == 0 {
      SameTurn(r, path, m);
    } else {
      TurnBack(path, r, m, j - 1);
      MirroredDelta(path, r, m, j);
      TurnStep(r, m + j);
      TurnStep(path, m - j + 1);
    }
  }

  lemma ConservedAtRest(resolution: int, s: State)
    requires resolution > 0 && Conserved(resolution, s, 0)
    ensures s.pulses == 0 && s.ccw == s.cw
  {
    if s.ccw > s.cw {
      StepsApart(resolution, s.ccw, s.cw);
    } else if s.cw > s.ccw {
      StepsApart(resolution, s.cw, s.ccw);
    }
  }

  /** A turn followed by the same turn backwards, however jumpy, reports as many events one way as the
      other, and leaves no pulse pending. */
  lemma ThereAndBackCancels(resolution: int, path: seq<Pins>, r: seq<Pins>)
    requires 0 < resolution <= 127 && ThereAndBack(path, r)
    ensures var s := Run(resolution, r, |r| - 1);
            s.pulses == 0 && s.ccw == s.cw
  {
    var m := |path| - 1;
    TurnBack(path, r, m, m);
    Conservation(resolution, r, |r| - 1);
    ConservedAtRest(resolution, Run(resolution, r, |r| - 1));
  }

  lemma {:induction false} StepsApart(resolution: int, m: nat, n: nat)
    requires resolution > 0 && m > n
    ensures Steps(resolution, m) >= Steps(resolution, n) + resolution
    decreases m
  {
    if m > n + 1 {
      StepsApart(resolution, m - 1, n);
    }
  }
}
