/** Layer lookup and the source-layer cache of quantum/action_layer.c, with the cache as a plain table from key to
    layer, and runs of key events interleaved with layer changes. */
module LayerModel {
  import opened Bitwise
  import opened Division
  import opened Keys
  import opened Optional

  /** The code of a transparent action (quantum/action_code.h). */
  const TRANSPARENT: nat := 1

  /** A build: the matrix size, the number of layer bits (a layer state has `1 << bits` bits), the number of layers,
      and the keymap, which gives the action code of a key on a layer. */
  datatype Config = Config(rows: nat, cols: nat, bits: nat, maxLayer: nat, keymap: (nat, Key) -> nat)

  predicate InMatrix(c: Config, key: Key) {
    key.row < c.rows && key.col < c.cols
  }

  /** The number of a key in the cache. */
  function Entry(c: Config, key: Key): (e: nat)
    requires InMatrix(c, key)
    ensures e < c.rows * c.cols
  {
    MulLess(key.row, c.rows, c.cols, key.col);
    key.row * c.cols + key.col
  }

  /** Different keys have different entries. */
  lemma EntryInjective(c: Config, k: Key, l: Key)
    requires InMatrix(c, k) && InMatrix(c, l) && Entry(c, k) == Entry(c, l)
    ensures k == l
  {
    if k.row < l.row {
      MulLess(k.row, l.row, c.cols, k.col);
    } else if l.row < k.row {
      MulLess(l.row, k.row, c.cols, l.col);
    }
  }

  /** A layer state of the build. */
  predicate IsLayerState(c: Config, state: nat) {
    state < Mask(Mask(c.bits))
  }

  datatype State = State(layers: nat, defaults: nat, stored: seq<nat>)

  predicate Valid(c: Config, s: State) {
    IsLayerState(c, s.layers) && IsLayerState(c, s.defaults) && |s.stored| == c.rows * c.cols
  }

  /** The layers that are on: `layer_state | default_layer_state`. */
  predicate IsOn(s: State, layer: nat) {
    Bit(s.layers, layer) || Bit(s.defaults, layer)
  }

  /** The layer is on and the key does something on it. */
  predicate Answers(c: Config, s: State, key: Key, layer: nat) {
    IsOn(s, layer) && c.keymap(layer, key) != TRANSPARENT
  }

  /** The topmost of the first `n` layers that answers a key, or 0. */
  function Topmost(c: Config, s: State, key: Key, n: nat): nat {
    if n == 0 then 0 else if Answers(c, s, key, n - 1) then n - 1 else Topmost(c, s, key, n - 1)
  }

  /** `read_source_layers_cache` */
  function ReadLayer(c: Config, s: State, key: Key): nat
    requires Valid(c, s)
  {
    if InMatrix(c, key) then s.stored[Entry(c, key)] else 0
  }

  datatype Event =
    | SetLayers(layers: nat, defaults: nat)
    | KeyEvent(pressed: bool, key: Key, cached: bool)

  predicate Possible(c: Config, e: Event) {
    e.SetLayers? ==> IsLayerState(c, e.layers) && IsLayerState(c, e.defaults)
  }

  /** The layer that an event's action is taken from: `store_or_get_action`. */
  function LayerFor(c: Config, s: State, pressed: bool, key: Key, cached: bool): nat
    requires Valid(c, s)
  {
    if cached && !pressed then ReadLayer(c, s, key) else Topmost(c, s, key, c.maxLayer)
  }

  function Stored(c: Config, s: State, key: Key, layer: nat): (t: State)
    requires Valid(c, s)
    ensures Valid(c, t)
  {
    if InMatrix(c, key) then s.(stored := s.stored[Entry(c, key) := layer]) else s
  }

  function Next(c: Config, s: State, e: Event): (t: State)
    requires Valid(c, s) && Possible(c, e)
    ensures Valid(c, t)
  {
    match e
    case SetLayers(layers, defaults) => s.(layers := layers, defaults := defaults)
    case KeyEvent(pressed, key, cached) =>
      if cached && pressed then Stored(c, s, key, Topmost(c, s, key, c.maxLayer)) else s
  }

  ghost predicate AllPossible(c: Config, es: seq<Event>) {
    forall i :: 0 <= i < |es| ==> Possible(c, es[i])
  }

  function Initial(c: Config): (s: State)
    ensures Valid(c, s)
  {
    State(0, 0, seq(c.rows * c.cols, _ => 0))
  }

  /** The state after the first `n` events of a run. */
  function Run(c: Config, es: seq<Event>, n: nat): (s: State)
    requires n <= |es| && AllPossible(c, es)
    ensures Valid(c, s)
  {
    if n == 0 then Initial(c) else Next(c, Run(c, es, n - 1), es[n - 1])
  }

  /** The action that event `n` of a run executes. */
  function ActionAt(c: Config, es: seq<Event>, n: nat): nat
    requires n < |es| && AllPossible(c, es) && es[n].KeyEvent?
  {
    c.keymap(LayerFor(c, Run(c, es, n), es[n].pressed, es[n].key, es[n].cached), es[n].key)
  }

  /** The latest press of a key among the first `n` events. */
  function LatestPress(es: seq<Event>, n: nat, key: Key): (i: Option<nat>)
    requires n <= |es|
    ensures i.Some? ==> i.value < n && es[i.value] == KeyEvent(true, key, true)
    ensures i.Some? ==> forall j :: i.value < j < n ==> es[j] != KeyEvent(true, key, true)
    ensures i.None? ==> forall j :: 0 <= j < n ==> es[j] != KeyEvent(true, key, true)
  {
    if n == 0 then None
    else if es[n - 1] == KeyEvent(true, key, true) then Some(n - 1)
    else LatestPress(es, n - 1, key)
  }

  // ---------------------------------------------------------------- properties

  /** The layer found is on and answers, no layer above it does; if no layer answers it is layer 0. */
  lemma {:induction false} TopmostExact(c: Config, s: State, key: Key, n: nat)
    ensures var top := Topmost(c, s, key, n);
            && (forall l :: top < l < n ==> !Answers(c, s, key, l))
            && (top == 0 || (top < n && Answers(c, s, key, top)))
  {
    if n > 0 {
      TopmostExact(c, s, key, n - 1);
    }
  }

  /** A layer that can be found fits the bits that the cache keeps of it. */
  lemma TopmostFits(c: Config, s: State, key: Key, n: nat)
    requires Valid(c, s)
    ensures Topmost(c, s, key, n) < Mask(c.bits)
  {
    var top := Topmost(c, s, key, n);
    TopmostExact(c, s, key, n);
    if top >= Mask(c.bits) {
      NoHighBits(s.layers, Mask(c.bits), top);
      NoHighBits(s.defaults, Mask(c.bits), top);
    }
  }

  /** The layers and default layers that the first `n` events leave on: those set last, or none. */
  function LatestLayers(es: seq<Event>, n: nat): (nat, nat)
    requires n <= |es|
  {
    if n == 0 then (0, 0)
    else if es[n - 1].SetLayers? then (es[n - 1].layers, es[n - 1].defaults)
    else LatestLayers(es, n - 1)
  }

  lemma {:induction false} LayersAreLatest(c: Config, es: seq<Event>, n: nat)
    requires n <= |es| && AllPossible(c, es)
    ensures (Run(c, es, n).layers, Run(c, es, n).defaults) == LatestLayers(es, n)
  {
    if n > 0 {
      LayersAreLatest(c, es, n - 1);
    }
  }

  /** With these layers and default layers on, the key does something on this layer. */
  predicate Active(c: Config, on: (nat, nat), key: Key, layer: nat) {
    (Bit(on.0, layer) || Bit(on.1, layer)) && c.keymap(layer, key) != 1
  }

  /** The layer is the highest on which the key does something, or it is layer 0 and there is no such layer above. */
  predicate HighestActive(c: Config, on: (nat, nat), key: Key, top: nat) {
    && (top == 0 || (top < c.maxLayer && Active(c, on, key, top)))
    && forall layer :: top < layer < c.maxLayer ==> !Active(c, on, key, layer)
  }

  /** A press, and any event that is not cached, executes the action of the highest layer that the latest changes left
      on, as a layer or as a default layer, and on which the key is not transparent; layer 0 is the last resort. */
  lemma PressExact(c: Config, es: seq<Event>, n: nat)
    requires n < |es| && AllPossible(c, es) && es[n].KeyEvent? && (es[n].pressed || !es[n].cached)
    ensures exists top :: HighestActive(c, LatestLayers(es, n), es[n].key, top)
                       && ActionAt(c, es, n) == c.keymap(top, es[n].key)
  {
    var s := Run(c, es, n);
    var top := Topmost(c, s, es[n].key, c.maxLayer);
    LayersAreLatest(c, es, n);
    TopmostExact(c, s, es[n].key, c.maxLayer);
    forall layer | top < layer < c.maxLayer ensures !Active(c, LatestLayers(es, n), es[n].key, layer) {
      assert !Answers(c, s, es[n].key, layer);
    }
    assert HighestActive(c, LatestLayers(es, n), es[n].key, top);
  }

  /** After `n` events the cache holds, for every key, the layer of its latest press. */
  lemma {:induction false} CacheHoldsLatest(c: Config, es: seq<Event>, n: nat, key: Key)
    requires n <= |es| && AllPossible(c, es) && InMatrix(c, key)
    ensures Run(c, es, n).stored[Entry(c, key)]
         == match LatestPress(es, n, key)
            case None => 0
            case Some(i) => Topmost(c, Run(c, es, i), key, c.maxLayer)
  {
    if n > 0 {
      CacheHoldsLatest(c, es, n - 1, key);
      var e := es[n - 1];
      if e.KeyEvent? && e.pressed && e.cached && e.key != key && InMatrix(c, e.key) {
        if Entry(c, e.key) == Entry(c, key) {
          EntryInjective(c, e.key, key);
        }
      }
    }
  }

  /** Whatever happens to the layers in between, the release of a matrix key executes the action of its latest press;
      a key that was never pressed is released on layer 0. */
  lemma ReleaseMatchesPress(c: Config, es: seq<Event>, n: nat)
    requires n < |es| && AllPossible(c, es)
    requires es[n].KeyEvent? && !es[n].pressed && es[n].cached && InMatrix(c, es[n].key)
    ensures ActionAt(c, es, n)
         == match LatestPress(es, n, es[n].key)
            case None => c.keymap(0, es[n].key)
            case Some(i) => ActionAt(c, es, i)
  {
    CacheHoldsLatest(c, es, n, es[n].key);
  }

  predicate IsRelease(e: Event, key: Key) {
    e.KeyEvent? && !e.pressed && e.cached && e.key == key
  }

  /** The release at event `n` executes the action of the latest press of its key, or that of layer 0. */
  predicate Matches(c: Config, es: seq<Event>, n: nat)
    requires n < |es| && AllPossible(c, es) && es[n].KeyEvent?
  {
    ActionAt(c, es, n)
    == match LatestPress(es, n, es[n].key)
       case None => c.keymap(0, es[n].key)
       case Some(i) => ActionAt(c, es, i)
  }

  /** Every release of the key in every run does. */
  ghost predicate AlwaysMatches(c: Config, key: Key) {
    forall es: seq<Event>, n: nat :: n < |es| && AllPossible(c, es) && IsRelease(es[n], key) ==> Matches(c, es, n)
  }

  /** No layer that can be on gives the key another action than layer 0 does, transparency aside. */
  ghost predicate OneAction(c: Config, key: Key) {
    forall layer: nat :: layer < c.maxLayer && layer < Mask(c.bits) && c.keymap(layer, key) != TRANSPARENT ==>
      c.keymap(layer, key) == c.keymap(0, key)
  }

  lemma OneActionMatches(c: Config, es: seq<Event>, n: nat)
    requires n < |es| && AllPossible(c, es) && es[n].KeyEvent? && IsRelease(es[n], es[n].key)
    requires !InMatrix(c, es[n].key) && OneAction(c, es[n].key)
    ensures Matches(c, es, n)
  {
    var latest := LatestPress(es, n, es[n].key);
    if latest.Some? {
      var s := Run(c, es, latest.value);
      TopmostExact(c, s, es[n].key, c.maxLayer);
      TopmostFits(c, s, es[n].key, c.maxLayer);
    }
  }

  /** Turn a layer on, press the key, release it. */
  function PressOn(layer: nat, key: Key): seq<Event> {
    [SetLayers(Mask(layer), 0), KeyEvent(true, key, true), KeyEvent(false, key, true)]
  }

  lemma PressOnPossible(c: Config, layer: nat, key: Key)
    requires layer < Mask(c.bits)
    ensures AllPossible(c, PressOn(layer, key))
  {
    MaskGrows(layer + 1, Mask(c.bits));
    MaskGrows(0, Mask(c.bits));
    assert Mask(layer) < Mask(layer + 1);
    assert forall i :: 0 <= i < 3 ==> Possible(c, PressOn(layer, key)[i]);
  }

  /** The one layer that is on is found if it answers. */
  lemma {:induction false} OnlyLayer(c: Config, s: State, key: Key, layer: nat, n: nat)
    requires s.layers == Mask(layer) && s.defaults == 0 && c.keymap(layer, key) != TRANSPARENT && layer < n
    ensures Topmost(c, s, key, n) == layer
  {
    BitMask(layer, n - 1);
    BitZero(n - 1);
    if layer < n - 1 {
      OnlyLayer(c, s, key, layer, n - 1);
    }
  }

  /** A key outside the matrix whose action differs on a layer is released with another action than it was pressed. */
  lemma PressOnDiffers(c: Config, layer: nat, key: Key)
    requires layer < c.maxLayer && layer < Mask(c.bits) && !InMatrix(c, key)
    requires c.keymap(layer, key) != TRANSPARENT && c.keymap(layer, key) != c.keymap(0, key)
    ensures AllPossible(c, PressOn(layer, key)) && !Matches(c, PressOn(layer, key), 2)
  {
    PressOnPossible(c, layer, key);
    var es := PressOn(layer, key);
    RunStep(c, es, 0);
    OnlyLayer(c, Run(c, es, 1), key, layer, c.maxLayer);
    assert LatestPress(es, 2, key) == Some(1);
  }

  /** In every run every release of a key executes the action of its latest press if and only if the key is in the
      matrix, where it is remembered, or has the same action on every layer that can be on. */
  lemma ReleasesExactly(c: Config, key: Key)
    ensures AlwaysMatches(c, key) <==> InMatrix(c, key) || OneAction(c, key)
  {
    if InMatrix(c, key) || OneAction(c, key) {
      forall es: seq<Event>, n: nat | n < |es| && AllPossible(c, es) && IsRelease(es[n], key) ensures Matches(c, es, n) {
        if InMatrix(c, key) {
          ReleaseMatchesPress(c, es, n);
        } else {
          OneActionMatches(c, es, n);
        }
      }
    } else {
      var layer: nat :| layer < c.maxLayer && layer < Mask(c.bits) && c.keymap(layer, key) != TRANSPARENT
                     && c.keymap(layer, key) != c.keymap(0, key);
      PressOnDiffers(c, layer, key);
      assert IsRelease(PressOn(layer, key)[2], key);
    }
  }

  /** Without the cache, a layer change between press and release can change the action. */
  lemma UncachedDiffers(c: Config, key: Key)
    requires c.bits > 0 && c.maxLayer > 1
    requires c.keymap(1, key) != TRANSPARENT && c.keymap(1, key) != c.keymap(0, key)
    ensures var es := [KeyEvent(true, key, false), SetLayers(2, 0), KeyEvent(false, key, false)];
            AllPossible(c, es) && ActionAt(c, es, 0) != ActionAt(c, es, 2)
  {
    MaskGrows(1, c.bits);
    MaskGrows(2, Mask(c.bits));
    var es := [KeyEvent(true, key, false), SetLayers(2, 0), KeyEvent(false, key, false)];
    assert forall i :: 0 <= i < |es| ==> Possible(c, es[i]);
    RunStep(c, es, 0);
    RunStep(c, es, 1);
    OnlyLayerOne(c, Run(c, es, 2), key, c.maxLayer);
    NoLayers(c, Initial(c), key, c.maxLayer);
  }

  lemma RunStep(c: Config, es: seq<Event>, n: nat)
    requires n < |es| && AllPossible(c, es)
    ensures Run(c, es, n + 1) == Next(c, Run(c, es, n), es[n])
    ensures Run(c, es, 0) == Initial(c)
  {
  }

  lemma {:induction false} NoLayers(c: Config, s: State, key: Key, n: nat)
    requires s.layers == 0 && s.defaults == 0
    ensures Topmost(c, s, key, n) == 0
  {
    if n > 0 {
      BitZero(n - 1);
      NoLayers(c, s, key, n - 1);
    }
  }

  lemma {:induction false} OnlyLayerOne(c: Config, s: State, key: Key, n: nat)
    requires s.layers == 2 && s.defaults == 0 && c.keymap(1, key) != TRANSPARENT && n > 1
    ensures Topmost(c, s, key, n) == 1
  {
    BitZero(n - 1);
    if n > 2 {
      BitMask(1, n - 1);
      assert Mask(1) == 2;
      OnlyLayerOne(c, s, key, n - 1);
    } else {
      BitMask(1, 1);
      assert Mask(1) == 2;
    }
  }
}
