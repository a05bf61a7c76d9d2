/** The layer state and the transposed source-layer cache, updated in place: bit `b` of the layers of eight keys share
    the byte `cache[entry / 8, b]`. */
module Layers {
  import opened Bitwise
  import opened Bytes
  import opened Keys
  import opened LayerModel

  // ---------------------------------------------------------------- bit planes

  /** The value of `-(b)` for a truth value, in an `int` of 32 bits. */
  function Negated(b: bool): nat { if b then Mask(32) - 1 else 0 }

  /** The byte that `cell ^= (-on ^ cell) & (1 << bit)` leaves. */
  function Spliced(cell: nat, on: bool, bit: nat): nat {
    Xor(cell, And(Xor(Negated(on), cell), Mask(bit)))
  }

  lemma NegatedBit(b: bool, i: nat, w: nat)
    requires w == 32 && i < w
    ensures Bit(Negated(b), i) == b
  {
    if b {
      BitNot(0, w, i);
      BitZero(i);
      assert Not(0, w) == Mask(w) - 1;
    } else {
      BitZero(i);
    }
  }

  /** Splicing replaces one bit and keeps the others. */
  lemma SplicedBit(cell: nat, on: bool, bit: nat, i: nat)
    requires bit < 8
    ensures Bit(Spliced(cell, on, bit), i) == if i == bit then on else Bit(cell, i)
  {
    BitXor(cell, And(Xor(Negated(on), cell), Mask(bit)), i);
    BitAnd(Xor(Negated(on), cell), Mask(bit), i);
    BitMask(bit, i);
    if i == bit {
      BitXor(Negated(on), cell, i);
      NegatedBit(on, i, 32);
    }
  }

  lemma SplicedIsByte(cell: Byte, on: bool, bit: nat)
    requires bit < 8
    ensures Spliced(cell, on, bit) < 256
  {
    MaskGrows(bit + 1, 8);
    assert Mask(bit) < Mask(bit + 1);
    assert Mask(8) == 256;
    XorBelow(cell, And(Xor(Negated(on), cell), Mask(bit)), 8);
  }

  /** The first `n` bits of a number, least significant first. */
  function Planes(x: nat, n: nat): (p: seq<bool>)
    ensures |p| == n && forall b :: 0 <= b < n ==> p[b] == Bit(x, b)
  {
    seq(n, b requires 0 <= b < n => Bit(x, b))
  }

  /** The number with the given first `n` bits. */
  function FromPlanes(p: seq<bool>, n: nat): nat
    requires n <= |p|
  {
    if n == 0 then 0 else Or(FromPlanes(p, n - 1), if p[n - 1] then Mask(n - 1) else 0)
  }

  lemma {:induction false} FromPlanesBit(p: seq<bool>, n: nat, i: nat)
    requires n <= |p|
    ensures Bit(FromPlanes(p, n), i) <==> i < n && p[i]
  {
    if n == 0 {
      BitZero(i);
    } else {
      FromPlanesBit(p, n - 1, i);
      BitOr(FromPlanes(p, n - 1), if p[n - 1] then Mask(n - 1) else 0, i);
      BitMask(n - 1, i);
      BitZero(i);
    }
  }

  /** The planes of a number that fits them give it back. */
  lemma PlanesRoundTrip(x: nat, n: nat)
    requires x < Mask(n)
    ensures FromPlanes(Planes(x, n), n) == x
  {
    forall i: nat ensures Bit(FromPlanes(Planes(x, n), n), i) == Bit(x, i) {
      FromPlanesBit(Planes(x, n), n, i);
      if i >= n {
        NoHighBits(x, n, i);
      }
    }
    SameBits(FromPlanes(Planes(x, n), n), x);
  }

  // ---------------------------------------------------------------- the state in place

  class LayerSwitch {
    const c: Config
    const cache: array2<Byte>
    var layerState: nat
    var defaultLayerState: nat
    var disableActionCache: bool

    ghost predicate Shaped() {
      c.bits <= 8 && cache.Length0 == (c.rows * c.cols + 7) / 8 && cache.Length1 == c.bits
    }

    ghost predicate Valid()
      reads this
    {
      Shaped() && IsLayerState(c, layerState) && IsLayerState(c, defaultLayerState)
    }

    /** The bits kept for an entry of the cache. */
    ghost function Kept(e: nat): (p: seq<bool>)
      requires Shaped() && e < c.rows * c.cols
      reads cache
      ensures |p| == c.bits
    {
      seq(c.bits, b requires 0 <= b < c.bits && Shaped() reads cache => Bit(cache[e / 8, b], e % 8))
    }

    /** The table that the cache stands for. */
    ghost function Table(): (t: seq<nat>)
      requires Shaped()
      reads cache
      ensures |t| == c.rows * c.cols && forall e :: 0 <= e < |t| ==> t[e] == FromPlanes(Kept(e), c.bits)
    {
      seq(c.rows * c.cols,
          e requires 0 <= e < c.rows * c.cols && Shaped() reads cache => FromPlanes(Kept(e), c.bits))
    }

    /** The state that the fields stand for. */
    ghost function Value(): (s: State)
      requires Valid()
      reads this, cache
      ensures LayerModel.Valid(c, s)
    {
      State(layerState, defaultLayerState, Table())
    }

    constructor (c: Config)
      requires c.bits <= 8
      ensures Valid() && fresh(cache) && this.c == c && !disableActionCache && Value() == Initial(c)
    {
      this.c := c;
      cache := new Byte[(c.rows * c.cols + 7) / 8, c.bits]((i, b) => 0);
      layerState, defaultLayerState, disableActionCache := 0, 0, false;
      new;
      forall e | 0 <= e < c.rows * c.cols ensures FromPlanes(Kept(e), c.bits) == 0 {
        BitZero(e % 8);
        NoPlanes(Kept(e), c.bits);
      }
    }

    /** Any of the layer operations: a new layer state. */
    method LayerStateSet(state: nat)
      requires Valid() && IsLayerState(c, state)
      modifies this`layerState
      ensures Valid() && Value() == old(Value()).(layers := state)
    {
      layerState := state;
    }

    method DefaultLayerStateSet(state: nat)
      requires Valid() && IsLayerState(c, state)
      modifies this`defaultLayerState
      ensures Valid() && Value() == old(Value()).(defaults := state)
    {
      defaultLayerState := state;
    }

    /** Stores the bits of a layer for one entry, each in its plane. */
    method UpdateSourceLayersCacheImpl(layer: Byte, entryNumber: nat)
      requires Valid() && entryNumber < c.rows * c.cols
      modifies cache
      ensures forall e :: 0 <= e < c.rows * c.cols ==>
          Kept(e) == if e == entryNumber then Planes(layer, c.bits) else old(Kept(e))
    {
      var storageIdx, storageBit := entryNumber / 8, entryNumber % 8;
      var bitNumber := 0;
      while bitNumber < c.bits
        invariant 0 <= bitNumber <= c.bits
        invariant forall i, b :: 0 <= i < cache.Length0 && 0 <= b < c.bits ==>
            cache[i, b] == if i == storageIdx && b < bitNumber then Spliced(old(cache[i, b]), Bit(layer, b), storageBit)
                           else old(cache[i, b])
      {
        var cell := cache[storageIdx, bitNumber];
        var on := And(layer, Mask(bitNumber)) != 0;
        MaskTests(layer, bitNumber);
        SplicedIsByte(cell, on, storageBit);
        cache[storageIdx, bitNumber] := Xor(cell, And(Xor(Negated(on), cell), Mask(storageBit)));
        bitNumber := bitNumber + 1;
      }
      forall e, b | 0 <= e < c.rows * c.cols && 0 <= b < c.bits
        ensures Bit(cache[e / 8, b], e % 8) == if e == entryNumber then Bit(layer, b) else old(Bit(cache[e / 8, b], e % 8))
      {
        if e / 8 == storageIdx {
          SplicedBit(old(cache[e / 8, b]), Bit(layer, b), storageBit, e % 8);
        }
      }
    }

    /** Gathers the bits of one entry. */
    method ReadSourceLayersCacheImpl(entryNumber: nat) returns (layer: nat)
      requires Valid() && entryNumber < c.rows * c.cols
      ensures layer == FromPlanes(Kept(entryNumber), c.bits)
    {
      var storageIdx, storageBit := entryNumber / 8, entryNumber % 8;
      layer := 0;
      var bitNumber := 0;
      while bitNumber < c.bits
        invariant 0 <= bitNumber <= c.bits
        invariant layer == FromPlanes(Kept(entryNumber), bitNumber)
      {
        MaskTests(cache[storageIdx, bitNumber], storageBit);
        layer := Or(layer, if And(cache[storageIdx, bitNumber], Mask(storageBit)) != 0 then Mask(bitNumber) else 0);
        bitNumber := bitNumber + 1;
      }
    }

    /** Remembers the layer of a key, as far as it fits the planes. */
    method UpdateSourceLayersCache(key: Key, layer: Byte)
      requires Valid()
      modifies cache
      ensures Valid() && Value() == Stored(c, old(Value()), key, FromPlanes(Planes(layer, c.bits), c.bits))
    {
      if key.row < c.rows && key.col < c.cols {
        ghost var entry := Entry(c, key);
        ghost var was := Table();
        UpdateSourceLayersCacheImpl(layer, key.row * c.cols + key.col);
        assert Table() == was[entry := FromPlanes(Planes(layer, c.bits), c.bits)];
      }
    }

    /** The layer remembered for a key, 0 for a key outside the matrix. */
    method ReadSourceLayersCache(key: Key) returns (layer: nat)
      requires Valid()
      ensures layer == ReadLayer(c, Value(), key)
    {
      if key.row < c.rows && key.col < c.cols {
        ghost var entry := Entry(c, key);
        layer := ReadSourceLayersCacheImpl(key.row * c.cols + key.col);
      } else {
        layer := 0;
      }
    }

    /** The topmost layer that is on and not transparent for a key. */
    method LayerSwitchGetLayer(key: Key) returns (layer: nat)
      requires Valid()
      ensures layer == Topmost(c, Value(), key, c.maxLayer)
    {
      var layers := Or(layerState, defaultLayerState);
      var i := c.maxLayer - 1;
      while i >= 0
        invariant -1 <= i < c.maxLayer
        invariant Topmost(c, Value(), key, c.maxLayer) == Topmost(c, Value(), key, i + 1)
      {
        MaskTests(layers, i);
        BitOr(layerState, defaultLayerState, i);
        if And(layers, Mask(i)) != 0 {
          var action := c.keymap(i, key);
          if action != TRANSPARENT {
            return i;
          }
        }
        i := i - 1;
      }
      layer := 0;
    }

    /** Looks up the action of an event: on press from the current layers, remembering the layer found; on release
        from the remembered layer. */
    method StoreOrGetAction(pressed: bool, key: Key) returns (action: nat)
      requires Valid()
      modifies cache
      ensures Valid() && Value() == Next(c, old(Value()), KeyEvent(pressed, key, !disableActionCache))
      ensures action == c.keymap(LayerFor(c, old(Value()), pressed, key, !disableActionCache), key)
    {
      if disableActionCache {
        var top := LayerSwitchGetLayer(key);
        return c.keymap(top, key);
      }
      var layer;
      if pressed {
        layer := LayerSwitchGetLayer(key);
        TopmostFits(c, Value(), key, c.maxLayer);
        MaskGrows(c.bits, 8);
        assert Mask(8) == 256;
        PlanesRoundTrip(layer, c.bits);
        UpdateSourceLayersCache(key, layer);
      } else {
        layer := ReadSourceLayersCache(key);
      }
      action := c.keymap(layer, key);
    }

    /** Handles an event with the cache switched off for its duration. */
    method ProcessRecordNocache(pressed: bool, key: Key) returns (action: nat)
      requires Valid()
      modifies this`disableActionCache, cache
      ensures Valid() && !disableActionCache
      ensures Value() == old(Value()) && action == c.keymap(Topmost(c, old(Value()), key, c.maxLayer), key)
    {
      disableActionCache := true;
      action := StoreOrGetAction(pressed, key);
      disableActionCache := false;
    }
  }

  lemma {:induction false} NoPlanes(p: seq<bool>, n: nat)
    requires n <= |p| && forall b :: 0 <= b < n ==> !p[b]
    ensures FromPlanes(p, n) == 0
  {
    if n > 0 {
      NoPlanes(p, n - 1);
    }
  }
}
