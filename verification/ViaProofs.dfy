/** Crash safety of `eeconfig_init_via`: wherever it is cut off, and however often, the store ends up
    either untouched or completely reset, and no half-reset store is ever taken to be valid. */
module ViaProofs {
  import opened Bytes
  import opened Division
  import opened StoreModel
  import opened KeymapProofs

  predicate InMagic(lay: Layout, a: nat) { lay.magicAddr <= a < lay.OptionsAddr() }

  predicate InOptions(lay: Layout, a: nat) { lay.OptionsAddr() <= a < lay.CustomAddr() }

  predicate InKeymap(lay: Layout, a: nat) { lay.KeymapAddr() <= a < lay.EncoderAddr() }

  predicate InEncoders(lay: Layout, a: nat) { lay.EncoderAddr() <= a < lay.MacroAddr() }

  predicate InMacros(lay: Layout, a: nat) { lay.MacroAddr() <= a < lay.End() }

  /** What a reset rewrites besides the magic bytes; keyboard-level custom bytes are left alone. */
  predicate InBody(lay: Layout, a: nat) {
    InOptions(lay, a) || InKeymap(lay, a) || InEncoders(lay, a) || InMacros(lay, a)
  }

  /** Byte `o` of the encoder region: layer by layer, clockwise first, big end first. */
  function EncoderByte(lay: Layout, encoder: (nat, nat, bool) -> Word, o: nat): Byte
    requires lay.encoders > 0
  {
    var i := o / 4;
    WordByte(encoder(i / lay.encoders, i % lay.encoders, o % 4 < 2), o % 2)
  }

  /** The byte a complete reset leaves at an address. */
  function ResetByte(lay: Layout, d: Defaults, a: nat): Byte {
    if InOptions(lay, a) then Shifted(d.options, lay.CustomAddr() - 1 - a) % 256
    else if InKeymap(lay, a) && lay.rows > 0 && lay.cols > 0 then KeymapByte(lay, d.key, a - lay.KeymapAddr())
    else if InEncoders(lay, a) && lay.encoders > 0 then EncoderByte(lay, d.encoder, a - lay.EncoderAddr())
    else 0
  }

  /** The complete reset of an image. */
  function ResetImage(lay: Layout, d: Defaults, img: Image): (r: Image)
    requires lay.Dated()
    ensures |r| == |img|
  {
    seq(|img|, a requires 0 <= a < |img| =>
      if InMagic(lay, a) then lay.Magic(a - lay.magicAddr)
      else if InBody(lay, a) then ResetByte(lay, d, a)
      else img[a])
  }

  // ---------------------------------------------------------------- what the updates do

  predicate GoodUpdate(lay: Layout, d: Defaults, u: Update) {
    InBody(lay, u.addr) && u.value == ResetByte(lay, d, u.addr)
  }

  /** Every update writes to the body, and what a complete reset has there. */
  ghost predicate Good(lay: Layout, d: Defaults, us: seq<Update>) {
    forall k :: 0 <= k < |us| ==> GoodUpdate(lay, d, us[k])
  }

  ghost predicate Touches(us: seq<Update>, a: nat) {
    exists k :: 0 <= k < |us| && us[k].addr == a
  }

  lemma TouchesConcat(us: seq<Update>, vs: seq<Update>, a: nat)
    ensures Touches(us + vs, a) <==> Touches(us, a) || Touches(vs, a)
  {
    if Touches(us, a) {
      var k :| 0 <= k < |us| && us[k].addr == a;
      assert (us + vs)[k].addr == a;
    }
    if Touches(vs, a) {
      var k :| 0 <= k < |vs| && vs[k].addr == a;
      assert (us + vs)[|us| + k].addr == a;
    }
  }

  lemma {:induction false} ApplyGood(lay: Layout, d: Defaults, img: Image, us: seq<Update>, a: nat)
    requires Good(lay, d, us) && a < |img|
    ensures Apply(img, us)[a] == if Touches(us, a) then ResetByte(lay, d, a) else img[a]
  {
    if us != [] {
      var n := |us| - 1;
      ApplyGood(lay, d, img, us[..n], a);
      assert us == us[..n] + [us[n]];
      TouchesConcat(us[..n], [us[n]], a);
      assert GoodUpdate(lay, d, us[n]);
      assert us[n].addr == a ==> Touches([us[n]], a) by { assert [us[n]][0] == us[n]; }
    }
  }

  /** Both bytes of the word at an address are written. */
  ghost predicate TouchesWord(us: seq<Update>, addr: nat) {
    Touches(us, addr) && Touches(us, addr + 1)
  }

  lemma WordTouchConcat(us: seq<Update>, vs: seq<Update>, addr: nat)
    ensures TouchesWord(us, addr) || TouchesWord(vs, addr) ==> TouchesWord(us + vs, addr)
  {
    TouchesConcat(us, vs, addr);
    TouchesConcat(us, vs, addr + 1);
  }

  lemma KeyGood(lay: Layout, d: Defaults, layer: nat, row: nat, col: nat)
    requires IsKey(lay, layer, row, col)
    ensures var us := SetKey(lay, layer, row, col, d.key(layer, row, col));
            && Good(lay, d, us)
            && TouchesWord(us, KeyAddr(lay, layer, row, col))
  {
    IndexInRange(lay, layer, row, col);
    KeymapBytes(lay, d.key, layer, row, col);
    var us := SetKey(lay, layer, row, col, d.key(layer, row, col));
    assert us[0].addr == KeyAddr(lay, layer, row, col) && us[1].addr == KeyAddr(lay, layer, row, col) + 1;
  }

  lemma {:induction false} ColsGood(lay: Layout, d: Defaults, layer: nat, row: nat, n: nat)
    requires layer < lay.layers && row < lay.rows && n <= lay.cols
    ensures Good(lay, d, ResetCols(lay, d, layer, row, n))
  {
    if n > 0 {
      ColsGood(lay, d, layer, row, n - 1);
      KeyGood(lay, d, layer, row, n - 1);
    }
  }

  lemma {:induction false} ColsTouch(lay: Layout, d: Defaults, layer: nat, row: nat, n: nat, col: nat)
    requires layer < lay.layers && row < lay.rows && col < n <= lay.cols
    ensures TouchesWord(ResetCols(lay, d, layer, row, n), KeyAddr(lay, layer, row, col))
  {
    if col < n - 1 {
      ColsTouch(lay, d, layer, row, n - 1, col);
    } else {
      KeyGood(lay, d, layer, row, col);
    }
    WordTouchConcat(ResetCols(lay, d, layer, row, n - 1), SetKey(lay, layer, row, n - 1, d.key(layer, row, n - 1)),
                    KeyAddr(lay, layer, row, col));
  }

  lemma {:induction false} RowsGood(lay: Layout, d: Defaults, layer: nat, n: nat)
    requires layer < lay.layers && n <= lay.rows
    ensures Good(lay, d, ResetRows(lay, d, layer, n))
  {
    if n > 0 {
      RowsGood(lay, d, layer, n - 1);
      ColsGood(lay, d, layer, n - 1, lay.cols);
    }
  }

  lemma {:induction false} RowsTouch(lay: Layout, d: Defaults, layer: nat, n: nat, row: nat, col: nat)
    requires layer < lay.layers && row < n <= lay.rows && col < lay.cols
    ensures TouchesWord(ResetRows(lay, d, layer, n), KeyAddr(lay, layer, row, col))
  {
    if row < n - 1 {
      RowsTouch(lay, d, layer, n - 1, row, col);
    } else {
      ColsTouch(lay, d, layer, row, lay.cols, col);
    }
    WordTouchConcat(ResetRows(lay, d, layer, n - 1), ResetCols(lay, d, layer, n - 1, lay.cols),
                    KeyAddr(lay, layer, row, col));
  }

  // ---------------------------------------------------------------- encoders

  /** The rank of an encoder in layer order. */
  function EncoderIndex(lay: Layout, layer: nat, id: nat): nat { layer * lay.encoders + id }

  lemma EncoderPlace(lay: Layout, layer: nat, id: nat, cw: bool)
    requires IsEncoder(lay, layer, id)
    ensures EncoderAddr(lay, layer, id, cw) == lay.EncoderAddr() + 4 * EncoderIndex(lay, layer, id) + (if cw then 0 else 2)
    ensures 4 * EncoderIndex(lay, layer, id) + 4 <= lay.EncoderSize()
    ensures EncoderIndex(lay, layer, id) / lay.encoders == layer && EncoderIndex(lay, layer, id) % lay.encoders == id
  {
    MulLess(layer, lay.layers, lay.encoders, id);
    DivMod(layer, id, lay.encoders);
  }

  lemma EncoderBytes(lay: Layout, encoder: (nat, nat, bool) -> Word, layer: nat, id: nat, cw: bool)
    requires IsEncoder(lay, layer, id)
    ensures var o := 4 * EncoderIndex(lay, layer, id) + (if cw then 0 else 2);
            && EncoderByte(lay, encoder, o) == WordByte(encoder(layer, id, cw), 0)
            && EncoderByte(lay, encoder, o + 1) == WordByte(encoder(layer, id, cw), 1)
  {
    EncoderPlace(lay, layer, id, cw);
    var i := EncoderIndex(lay, layer, id);
    var o := 4 * i + (if cw then 0 else 2);
    assert o / 4 == i && (o + 1) / 4 == i;
    assert (o % 4 < 2 <==> cw) && ((o + 1) % 4 < 2 <==> cw) && o % 2 == 0 && (o + 1) % 2 == 1;
  }

  lemma DirectionGood(lay: Layout, d: Defaults, layer: nat, id: nat, cw: bool)
    requires IsEncoder(lay, layer, id)
    ensures var us := SetEncoder(lay, layer, id, cw, d.encoder(layer, id, cw));
            Good(lay, d, us) && TouchesWord(us, EncoderAddr(lay, layer, id, cw))
  {
    EncoderPlace(lay, layer, id, cw);
    EncoderBytes(lay, d.encoder, layer, id, cw);
    var us := SetEncoder(lay, layer, id, cw, d.encoder(layer, id, cw));
    assert us[0].addr == EncoderAddr(lay, layer, id, cw) && us[1].addr == EncoderAddr(lay, layer, id, cw) + 1;
  }

  lemma {:induction false} EncodersGood(lay: Layout, d: Defaults, layer: nat, n: nat)
    requires layer < lay.layers && n <= lay.encoders
    ensures Good(lay, d, ResetEncoders(lay, d, layer, n))
  {
    if n > 0 {
      EncodersGood(lay, d, layer, n - 1);
      DirectionGood(lay, d, layer, n - 1, true);
      DirectionGood(lay, d, layer, n - 1, false);
    }
  }

  lemma {:induction false} EncodersTouch(lay: Layout, d: Defaults, layer: nat, n: nat, id: nat, cw: bool)
    requires layer < lay.layers && id < n <= lay.encoders
    ensures TouchesWord(ResetEncoders(lay, d, layer, n), EncoderAddr(lay, layer, id, cw))
  {
    var a := EncoderAddr(lay, layer, id, cw);
    if id < n - 1 {
      EncodersTouch(lay, d, layer, n - 1, id, cw);
    } else {
      DirectionGood(lay, d, layer, id, cw);
      WordTouchConcat(SetEncoder(lay, layer, id, true, d.encoder(layer, id, true)),
                      SetEncoder(lay, layer, id, false, d.encoder(layer, id, false)), a);
    }
    WordTouchConcat(ResetEncoders(lay, d, layer, n - 1), ResetEncoder(lay, d, layer, n - 1), a);
  }

  // ---------------------------------------------------------------- the whole body

  lemma {:induction false} LayersGood(lay: Layout, d: Defaults, n: nat)
    requires n <= lay.layers
    ensures Good(lay, d, ResetLayers(lay, d, n))
  {
    if n > 0 {
      LayersGood(lay, d, n - 1);
      RowsGood(lay, d, n - 1, lay.rows);
      EncodersGood(lay, d, n - 1, lay.encoders);
    }
  }

  lemma LayerTouch(lay: Layout, d: Defaults, layer: nat, addr: nat)
    requires TouchesWord(ResetRows(lay, d, layer, lay.rows), addr)
          || TouchesWord(ResetEncoders(lay, d, layer, lay.encoders), addr)
    ensures TouchesWord(ResetLayer(lay, d, layer), addr)
  {
    WordTouchConcat(ResetRows(lay, d, layer, lay.rows), ResetEncoders(lay, d, layer, lay.encoders), addr);
  }

  lemma {:induction false} EarlierLayer(lay: Layout, d: Defaults, n: nat, addr: nat)
    requires n > 0 && TouchesWord(ResetLayers(lay, d, n - 1), addr)
    ensures TouchesWord(ResetLayers(lay, d, n), addr)
  {
    WordTouchConcat(ResetLayers(lay, d, n - 1), ResetLayer(lay, d, n - 1), addr);
  }

  lemma {:induction false} LastLayer(lay: Layout, d: Defaults, n: nat, addr: nat)
    requires n > 0 && TouchesWord(ResetLayer(lay, d, n - 1), addr)
    ensures TouchesWord(ResetLayers(lay, d, n), addr)
  {
    WordTouchConcat(ResetLayers(lay, d, n - 1), ResetLayer(lay, d, n - 1), addr);
  }

  /** A word that the reset of one layer touches is touched by the reset of all layers. */
  lemma {:induction false} LayersTouch(lay: Layout, d: Defaults, n: nat, layer: nat, addr: nat)
    requires layer < n <= lay.layers && TouchesWord(ResetLayer(lay, d, layer), addr)
    ensures TouchesWord(ResetLayers(lay, d, n), addr)
  {
    if layer < n - 1 {
      LayersTouch(lay, d, n - 1, layer, addr);
      EarlierLayer(lay, d, n, addr);
    } else {
      LastLayer(lay, d, n, addr);
    }
  }

  lemma {:induction false} MacrosGood(lay: Layout, d: Defaults, n: nat)
    requires n <= lay.macroSize
    ensures Good(lay, d, ResetMacros(lay, n))
    ensures forall a :: lay.MacroAddr() <= a < lay.MacroAddr() + n ==> Touches(ResetMacros(lay, n), a)
  {
    if n > 0 {
      MacrosGood(lay, d, n - 1);
      var u := Update(lay.MacroAddr() + n - 1, 0);
      assert [u][0].addr == u.addr;
      forall a | lay.MacroAddr() <= a < lay.MacroAddr() + n ensures Touches(ResetMacros(lay, n), a) {
        TouchesConcat(ResetMacros(lay, n - 1), [u], a);
      }
    }
  }

  lemma {:induction false} OptionsGood(lay: Layout, d: Defaults, n: nat)
    requires n <= lay.optionsSize
    ensures Good(lay, d, SetOptions(lay, d.options, n))
    ensures forall a :: lay.CustomAddr() - n <= a < lay.CustomAddr() ==> Touches(SetOptions(lay, d.options, n), a)
  {
    if n > 0 {
      OptionsGood(lay, d, n - 1);
      var u := Update(lay.CustomAddr() - n, Shifted(d.options, n - 1) % 256);
      assert [u][0].addr == u.addr;
      forall a | lay.CustomAddr() - n <= a < lay.CustomAddr() ensures Touches(SetOptions(lay, d.options, n), a) {
        TouchesConcat(SetOptions(lay, d.options, n - 1), [u], a);
      }
    }
  }

  /** Every rank belongs to an encoder. */
  lemma EncoderOf(lay: Layout, i: nat) returns (layer: nat, id: nat)
    requires i < lay.layers * lay.encoders
    ensures IsEncoder(lay, layer, id) && EncoderIndex(lay, layer, id) == i
  {
    assert lay.encoders == 0 ==> lay.layers * lay.encoders == 0;
    layer, id := i / lay.encoders, i % lay.encoders;
    DivBound(i, lay.layers, lay.encoders);
  }

  lemma EncodersTile(lay: Layout, a: nat) returns (layer: nat, id: nat, cw: bool)
    requires InEncoders(lay, a)
    ensures IsEncoder(lay, layer, id)
    ensures EncoderAddr(lay, layer, id, cw) <= a <= EncoderAddr(lay, layer, id, cw) + 1
  {
    var o := a - lay.EncoderAddr();
    var i := o / 4;
    cw := o % 4 < 2;
    layer, id := EncoderOf(lay, i);
    EncoderPlace(lay, layer, id, cw);
  }

  lemma KeysReset(lay: Layout, d: Defaults, a: nat)
    requires InKeymap(lay, a)
    ensures Touches(ResetLayers(lay, d, lay.layers), a)
  {
    KeysTile(lay, a);
    var layer, row, col :|
      IsKey(lay, layer, row, col) && KeyAddr(lay, layer, row, col) <= a <= KeyAddr(lay, layer, row, col) + 1;
    RowsTouch(lay, d, layer, lay.rows, row, col);
    LayerTouch(lay, d, layer, KeyAddr(lay, layer, row, col));
    LayersTouch(lay, d, lay.layers, layer, KeyAddr(lay, layer, row, col));
  }

  lemma EncodersReset(lay: Layout, d: Defaults, a: nat)
    requires InEncoders(lay, a)
    ensures Touches(ResetLayers(lay, d, lay.layers), a)
  {
    var layer, id, cw := EncodersTile(lay, a);
    EncodersTouch(lay, d, layer, lay.encoders, id, cw);
    LayerTouch(lay, d, layer, EncoderAddr(lay, layer, id, cw));
    LayersTouch(lay, d, lay.layers, layer, EncoderAddr(lay, layer, id, cw));
  }

  lemma BodyTouched(lay: Layout, d: Defaults, a: nat)
    requires InBody(lay, a)
    ensures Touches(InitBody(lay, d), a)
  {
    var us, vs, ws := SetOptions(lay, d.options, lay.optionsSize), ResetLayers(lay, d, lay.layers),
                      ResetMacros(lay, lay.macroSize);
    TouchesConcat(us, vs, a);
    TouchesConcat(us + vs, ws, a);
    if InOptions(lay, a) {
      OptionsGood(lay, d, lay.optionsSize);
    } else if InKeymap(lay, a) {
      KeysReset(lay, d, a);
    } else if InEncoders(lay, a) {
      EncodersReset(lay, d, a);
    } else {
      MacrosGood(lay, d, lay.macroSize);
    }
  }

  /** The updates between the two magic writes touch all of the body and nothing else. */
  lemma BodyGood(lay: Layout, d: Defaults)
    ensures Good(lay, d, InitBody(lay, d))
    ensures forall a: nat :: InBody(lay, a) ==> Touches(InitBody(lay, d), a)
  {
    OptionsGood(lay, d, lay.optionsSize);
    LayersGood(lay, d, lay.layers);
    MacrosGood(lay, d, lay.macroSize);
    forall a: nat | InBody(lay, a) ensures Touches(InitBody(lay, d), a) {
      BodyTouched(lay, d, a);
    }
  }

  // ---------------------------------------------------------------- the complete reset

  lemma {:induction false} ApplyElsewhere(img: Image, us: seq<Update>, a: nat)
    requires a < |img| && !Touches(us, a)
    ensures Apply(img, us)[a] == img[a]
  {
    if us != [] {
      var n := |us| - 1;
      assert us[n].addr != a;
      forall k | 0 <= k < n ensures us[..n][k].addr != a {
        assert us[k].addr != a;
      }
      ApplyElsewhere(img, us[..n], a);
    }
  }

  lemma MagicKept(lay: Layout, d: Defaults, img: Image, us: seq<Update>, a: nat)
    requires Good(lay, d, us) && a < |img| && !InBody(lay, a)
    ensures Apply(img, us)[a] == img[a]
  {
    forall k | 0 <= k < |us| ensures us[k].addr != a {
      assert GoodUpdate(lay, d, us[k]);
    }
    ApplyElsewhere(img, us, a);
  }

  /** The three magic bytes after the first `n` updates of `via_eeprom_set_valid`. */
  function Marked(lay: Layout, img: Image, valid: bool, n: nat): (r: Image)
    requires lay.Dated() && lay.OptionsAddr() <= |img| && n <= 3
    ensures |r| == |img|
    ensures forall a :: 0 <= a < |img| ==>
              r[a] == if lay.magicAddr <= a < lay.magicAddr + n
                      then (if valid then lay.Magic(a - lay.magicAddr) else 0xFF) else img[a]
  {
    if n == 0 then img
    else Marked(lay, img, valid, n - 1)[lay.magicAddr + n - 1 := if valid then lay.Magic(n - 1) else 0xFF]
  }

  lemma {:induction false} ApplyMagic(lay: Layout, img: Image, valid: bool, n: nat)
    requires lay.Dated() && lay.OptionsAddr() <= |img| && n <= 3
    ensures Apply(img, SetValid(lay, valid)[..n]) == Marked(lay, img, valid, n)
  {
    if n > 0 {
      ApplyMagic(lay, img, valid, n - 1);
      var us := SetValid(lay, valid);
      assert us[..n] == us[..n - 1] + [us[n - 1]];
      ApplyAppend(img, us[..n - 1], us[n - 1]);
    }
  }

  /** The image once the store is marked invalid and the first part `us` of the body is written. */
  function Underway(lay: Layout, img: Image, us: seq<Update>): Image
    requires lay.Dated() && lay.End() <= |img|
  {
    Apply(Apply(img, SetValid(lay, false)), us)
  }

  lemma UnderwayMagic(lay: Layout, d: Defaults, img: Image, us: seq<Update>, i: nat)
    requires lay.Dated() && lay.End() <= |img| && Good(lay, d, us) && i < 3
    ensures Underway(lay, img, us)[lay.magicAddr + i] == 0xFF
  {
    ApplyMagic(lay, img, false, 3);
    var marked := SetValid(lay, false);
    assert marked[..3] == marked;
    MagicKept(lay, d, Apply(img, marked), us, lay.magicAddr + i);
  }

  lemma BodyResets(lay: Layout, d: Defaults, img: Image, a: nat)
    requires a < |img|
    ensures Apply(img, InitBody(lay, d))[a] == if InBody(lay, a) then ResetByte(lay, d, a) else img[a]
  {
    BodyGood(lay, d);
    if InBody(lay, a) {
      ApplyGood(lay, d, img, InitBody(lay, d), a);
    } else {
      MagicKept(lay, d, img, InitBody(lay, d), a);
    }
  }

  lemma InitForm(lay: Layout, d: Defaults, img: Image)
    requires lay.Dated() && lay.End() <= |img|
    ensures Apply(img, InitVia(lay, d))
         == Marked(lay, Apply(Marked(lay, img, false, 3), InitBody(lay, d)), true, 3)
  {
    var body, marked, done := InitBody(lay, d), SetValid(lay, false), SetValid(lay, true);
    ApplyConcat(img, marked + body, done);
    ApplyConcat(img, marked, body);
    ApplyMagic(lay, img, false, 3);
    ApplyMagic(lay, Apply(Apply(img, marked), body), true, 3);
    assert marked[..3] == marked && done[..3] == done;
  }

  lemma InitResetsAt(lay: Layout, d: Defaults, img: Image, a: nat)
    requires lay.Dated() && lay.End() <= |img| && a < |img|
    ensures Marked(lay, Apply(Marked(lay, img, false, 3), InitBody(lay, d)), true, 3)[a] == ResetImage(lay, d, img)[a]
  {
    BodyResets(lay, d, Marked(lay, img, false, 3), a);
  }

  /** A reset that is not cut off leaves exactly the reset image. */
  lemma InitResets(lay: Layout, d: Defaults, img: Image)
    requires lay.Dated() && lay.End() <= |img|
    ensures Apply(img, InitVia(lay, d)) == ResetImage(lay, d, img)
  {
    InitForm(lay, d, img);
    var r := Apply(img, InitVia(lay, d));
    forall a: nat | a < |img| ensures r[a] == ResetImage(lay, d, img)[a] {
      InitResetsAt(lay, d, img, a);
    }
  }

  // ---------------------------------------------------------------- cutting the reset off

  /** The image after the reset was cut off following its first `n` byte updates. */
  function Cut(lay: Layout, d: Defaults, img: Image, n: nat): (r: Image)
    requires lay.Dated() && lay.End() <= |img|
    ensures |r| == |img|
  {
    var us := InitVia(lay, d);
    Apply(img, if n < |us| then us[..n] else us)
  }

  /** Where in the reset a cut falls. */
  lemma CutForm(lay: Layout, d: Defaults, img: Image, n: nat)
    requires lay.Dated() && lay.End() <= |img| && n < |InitVia(lay, d)|
    ensures var b := |InitBody(lay, d)|;
            Cut(lay, d, img, n) ==
              if n < 3 then Marked(lay, img, false, n)
              else if n <= 3 + b then Underway(lay, img, InitBody(lay, d)[..n - 3])
              else Marked(lay, Underway(lay, img, InitBody(lay, d)), true, n - 3 - b)
  {
    var body, marked, done := InitBody(lay, d), SetValid(lay, false), SetValid(lay, true);
    var us := InitVia(lay, d);
    if n < 3 {
      assert us[..n] == marked[..n];
      ApplyMagic(lay, img, false, n);
    } else if n <= 3 + |body| {
      assert us[..n] == marked + body[..n - 3];
      ApplyConcat(img, marked, body[..n - 3]);
    } else {
      var k := n - 3 - |body|;
      assert us[..n] == marked + body + done[..k];
      ApplyConcat(img, marked + body, done[..k]);
      ApplyConcat(img, marked, body);
      ApplyMagic(lay, Underway(lay, img, body), true, k);
    }
  }

  /** A reset cut off after its first byte update and before its last leaves an invalid store. */
  lemma CutIsInvalid(lay: Layout, d: Defaults, img: Image, n: nat)
    requires lay.Dated() && lay.End() <= |img| && 0 < n < |InitVia(lay, d)|
    ensures !IsValid(lay, Cut(lay, d, img, n))
  {
    CutForm(lay, d, img, n);
    var body := InitBody(lay, d);
    BodyGood(lay, d);
    if 3 <= n <= 3 + |body| {
      assert Good(lay, d, body[..n - 3]);
      UnderwayMagic(lay, d, img, body[..n - 3], 0);
    } else if n > 3 + |body| {
      UnderwayMagic(lay, d, img, body, 2);
    }
  }

  /** Nothing outside the magic bytes and the body differs. */
  ghost predicate SameElsewhere(lay: Layout, img: Image, j: Image) {
    |j| == |img| && forall a :: 0 <= a < |img| && !InMagic(lay, a) && !InBody(lay, a) ==> j[a] == img[a]
  }

  lemma CutElsewhere(lay: Layout, d: Defaults, img: Image, n: nat)
    requires lay.Dated() && lay.End() <= |img|
    ensures SameElsewhere(lay, img, Cut(lay, d, img, n))
  {
    var us := InitVia(lay, d);
    var cut := if n < |us| then us[..n] else us;
    BodyGood(lay, d);
    forall a | 0 <= a < |img| && !InMagic(lay, a) && !InBody(lay, a) ensures Apply(img, cut)[a] == img[a] {
      forall k | 0 <= k < |cut| ensures cut[k].addr != a {
        assert cut[k] == us[k];
        if 3 <= k < 3 + |InitBody(lay, d)| {
          assert us[k] == InitBody(lay, d)[k - 3];
          assert GoodUpdate(lay, d, us[k]);
        }
      }
      ApplyElsewhere(img, cut, a);
    }
  }

  /** The reset image depends only on what a reset leaves alone. */
  lemma ResetAgain(lay: Layout, d: Defaults, img: Image, j: Image)
    requires lay.Dated() && SameElsewhere(lay, img, j)
    ensures ResetImage(lay, d, j) == ResetImage(lay, d, img)
  {
  }

  /** The image after a reset that was cut off, followed by boots that were cut off in turn: `cuts[i]` is
      how many byte updates the `i`-th attempt got done. */
  function AfterCuts(lay: Layout, d: Defaults, img: Image, cuts: seq<nat>): (r: Image)
    requires lay.Dated() && lay.End() <= |img|
    ensures |r| == |img|
  {
    if cuts == [] then img
    else
      var n := |cuts| - 1;
      var j := AfterCuts(lay, d, img, cuts[..n]);
      if n > 0 && IsValid(lay, j) then j else Cut(lay, d, j, cuts[n])
  }

  /** However often a reset is cut off, a store judged valid is untouched or completely reset, and the
      next boot that runs to its end leaves it so. */
  lemma {:induction false} CrashSafe(lay: Layout, d: Defaults, img: Image, cuts: seq<nat>)
    requires lay.Dated() && lay.End() <= |img|
    ensures var j := AfterCuts(lay, d, img, cuts);
            && SameElsewhere(lay, img, j)
            && (IsValid(lay, j) ==> j == img || j == ResetImage(lay, d, img))
            && Boot(lay, d, j) == if IsValid(lay, j) then j else ResetImage(lay, d, img)
  {
    var j := AfterCuts(lay, d, img, cuts);
    if cuts != [] {
      var n := |cuts| - 1;
      var before := AfterCuts(lay, d, img, cuts[..n]);
      CrashSafe(lay, d, img, cuts[..n]);
      if !(n > 0 && IsValid(lay, before)) {
        CutElsewhere(lay, d, before, cuts[n]);
        ResetAgain(lay, d, img, before);
        InitResets(lay, d, before);
        if 0 < cuts[n] < |InitVia(lay, d)| {
          CutIsInvalid(lay, d, before, cuts[n]);
        }
      }
    }
    ResetAgain(lay, d, img, j);
    InitResets(lay, d, j);
  }

  // ---------------------------------------------------------------- what a reset store reads as

  lemma WordFrom(img: Image, addr: nat, w: Word)
    requires addr + 1 < |img| && img[addr] == WordByte(w, 0) && img[addr + 1] == WordByte(w, 1)
    ensures WordAt(img, addr) == w
  {
    WordBytes(w);
  }

  lemma ResetAt(lay: Layout, d: Defaults, img: Image, a: nat, b: Byte)
    requires lay.Dated() && a < |img| && InBody(lay, a) && ResetByte(lay, d, a) == b
    ensures ResetImage(lay, d, img)[a] == b
  {
  }

  lemma KeyResetByte(lay: Layout, d: Defaults, layer: nat, row: nat, col: nat, i: nat)
    requires IsKey(lay, layer, row, col) && i < 2
    ensures InKeymap(lay, KeyAddr(lay, layer, row, col) + i)
    ensures ResetByte(lay, d, KeyAddr(lay, layer, row, col) + i) == WordByte(d.key(layer, row, col), i)
  {
    IndexInRange(lay, layer, row, col);
    KeymapBytes(lay, d.key, layer, row, col);
  }

  lemma KeyImageByte(lay: Layout, d: Defaults, img: Image, layer: nat, row: nat, col: nat, i: nat, a: nat)
    requires lay.Dated() && lay.End() <= |img| && IsKey(lay, layer, row, col)
    requires i < 2 && a == KeyAddr(lay, layer, row, col) + i
    ensures a < |img| && ResetImage(lay, d, img)[a] == WordByte(d.key(layer, row, col), i)
  {
    KeyResetByte(lay, d, layer, row, col, i);
    ResetAt(lay, d, img, a, WordByte(d.key(layer, row, col), i));
  }

  lemma KeyWord(lay: Layout, d: Defaults, img: Image, layer: nat, row: nat, col: nat, a: nat)
    requires lay.Dated() && lay.End() <= |img| && IsKey(lay, layer, row, col)
    requires a == KeyAddr(lay, layer, row, col)
    ensures WordAt(ResetImage(lay, d, img), a) == d.key(layer, row, col)
  {
    KeyImageByte(lay, d, img, layer, row, col, 0, a);
    KeyImageByte(lay, d, img, layer, row, col, 1, a + 1);
    WordFrom(ResetImage(lay, d, img), a, d.key(layer, row, col));
  }

  /** A completely reset store reads as the default keymap. */
  lemma ResetReadsKeys(lay: Layout, d: Defaults, img: Image, layer: nat, row: nat, col: nat)
    requires lay.Dated() && lay.End() <= |img| && IsKey(lay, layer, row, col)
    ensures Keycode(lay, ResetImage(lay, d, img), layer, row, col) == d.key(layer, row, col)
  {
    KeyWord(lay, d, img, layer, row, col, KeyAddr(lay, layer, row, col));
  }

  lemma EncoderResetByte(lay: Layout, d: Defaults, layer: nat, id: nat, cw: bool, i: nat)
    requires IsEncoder(lay, layer, id) && i < 2
    ensures InEncoders(lay, EncoderAddr(lay, layer, id, cw) + i)
    ensures ResetByte(lay, d, EncoderAddr(lay, layer, id, cw) + i) == WordByte(d.encoder(layer, id, cw), i)
  {
    EncoderPlace(lay, layer, id, cw);
    EncoderBytes(lay, d.encoder, layer, id, cw);
  }

  lemma EncoderImageByte(lay: Layout, d: Defaults, img: Image, layer: nat, id: nat, cw: bool, i: nat, a: nat)
    requires lay.Dated() && lay.End() <= |img| && IsEncoder(lay, layer, id)
    requires i < 2 && a == EncoderAddr(lay, layer, id, cw) + i
    ensures a < |img| && ResetImage(lay, d, img)[a] == WordByte(d.encoder(layer, id, cw), i)
  {
    EncoderResetByte(lay, d, layer, id, cw, i);
    ResetAt(lay, d, img, a, WordByte(d.encoder(layer, id, cw), i));
  }

  lemma EncoderWord(lay: Layout, d: Defaults, img: Image, layer: nat, id: nat, cw: bool, a: nat)
    requires lay.Dated() && lay.End() <= |img| && IsEncoder(lay, layer, id)
    requires a == EncoderAddr(lay, layer, id, cw)
    ensures WordAt(ResetImage(lay, d, img), a) == d.encoder(layer, id, cw)
  {
    EncoderImageByte(lay, d, img, layer, id, cw, 0, a);
    EncoderImageByte(lay, d, img, layer, id, cw, 1, a + 1);
    WordFrom(ResetImage(lay, d, img), a, d.encoder(layer, id, cw));
  }

  /** ... and as the default encoder map. */
  lemma ResetReadsEncoders(lay: Layout, d: Defaults, img: Image, layer: nat, id: nat, cw: bool)
    requires lay.Dated() && lay.End() <= |img| && IsEncoder(lay, layer, id)
    ensures Encoder(lay, ResetImage(lay, d, img), layer, id, cw) == d.encoder(layer, id, cw)
  {
    EncoderWord(lay, d, img, layer, id, cw, EncoderAddr(lay, layer, id, cw));
  }

  /** It is valid, has no macros, and keeps every byte a reset does not own. */
  lemma ResetReadsRest(lay: Layout, d: Defaults, img: Image)
    requires lay.Dated() && lay.End() <= |img|
    ensures var r := ResetImage(lay, d, img);
            && IsValid(lay, r) && SameElsewhere(lay, img, r)
            && forall a :: lay.MacroAddr() <= a < lay.End() ==> r[a] == 0
  {
  }

  function Pow256(n: nat): nat
    requires n <= 4
  {
    if n == 0 then 1 else if n == 1 then 0x100 else if n == 2 then 0x1_0000 else if n == 3 then 0x100_0000 else 0x1_0000_0000
  }

  lemma Splice(s: nat, n: nat)
    requires 0 < n <= 4
    ensures s / 256 % Pow256(n - 1) * 256 + s % 256 == s % Pow256(n)
  {
  }

  lemma Fits32(s: nat, n: nat)
    requires n <= 4
    ensures s % Pow256(n) < 0x1_0000_0000
  {
  }

  lemma OptionsStep(img: Image, from: nat, n: nat, s: nat)
    requires 0 < n <= 4 && from + n <= |img| && img[from + n - 1] == s % 256
    requires Options(img, from, n - 1) == s / 256 % Pow256(n - 1)
    ensures Options(img, from, n) == s % Pow256(n)
  {
    Splice(s, n);
    Fits32(s, n);
  }

  lemma {:induction false} OptionsRead(lay: Layout, value: nat, img: Image, n: nat)
    requires n <= lay.optionsSize <= 4 && lay.CustomAddr() <= |img|
    requires forall a: nat :: InOptions(lay, a) ==> img[a] == Shifted(value, lay.CustomAddr() - 1 - a) % 256
    ensures Options(img, lay.OptionsAddr(), n) == Shifted(value, lay.optionsSize - n) % Pow256(n)
  {
    if n > 0 {
      OptionsRead(lay, value, img, n - 1);
      assert InOptions(lay, lay.OptionsAddr() + n - 1);
      OptionsStep(img, lay.OptionsAddr(), n, Shifted(value, lay.optionsSize - n));
    }
  }

  lemma OptionWritten(lay: Layout, d: Defaults, img: Image, us: seq<Update>, a: nat)
    requires us == SetOptions(lay, d.options, lay.optionsSize) && InOptions(lay, a) && a < |img|
    ensures Apply(img, us)[a] == Shifted(d.options, lay.CustomAddr() - 1 - a) % 256
  {
    OptionsGood(lay, d, lay.optionsSize);
    ApplyGood(lay, d, img, us, a);
  }

  /** Layout options of 1 to 4 bytes are read back as they were set. */
  lemma OptionsRoundTrip(lay: Layout, d: Defaults, img: Image, us: seq<Update>)
    requires lay.optionsSize <= 4 && lay.CustomAddr() <= |img|
    requires us == SetOptions(lay, d.options, lay.optionsSize)
    ensures Options(Apply(img, us), lay.OptionsAddr(), lay.optionsSize) == d.options % Pow256(lay.optionsSize)
  {
    var img' := Apply(img, us);
    forall a: nat | InOptions(lay, a) ensures img'[a] == Shifted(d.options, lay.CustomAddr() - 1 - a) % 256 {
      OptionWritten(lay, d, img, us, a);
    }
    OptionsRead(lay, d.options, img', lay.optionsSize);
  }

  // ---------------------------------------------------------------- build dates

  function DigitOf(ch: char): int { ch as int - 48 }

  /** The magic bytes hold the last two digits of the year, the month and the day, in binary coded decimal. */
  lemma MagicDigits(lay: Layout)
    requires lay.Dated()
    ensures lay.Magic(0) == 16 * DigitOf(lay.date[2]) + DigitOf(lay.date[3])
    ensures lay.Magic(1) == 16 * DigitOf(lay.date[5]) + DigitOf(lay.date[6])
    ensures lay.Magic(2) == 16 * DigitOf(lay.date[8]) + DigitOf(lay.date[9])
  {
    LowDigit(lay.date[2]);
    LowDigit(lay.date[3]);
    LowDigit(lay.date[5]);
    LowDigit(lay.date[6]);
    LowDigit(lay.date[8]);
    LowDigit(lay.date[9]);
  }

  lemma LowDigit(ch: char)
    requires '0' <= ch <= '9'
    ensures ch as int % 16 == DigitOf(ch)
  {
  }

  /** Two build dates agree on year (last two digits), month and day. */
  predicate SameDay(a: Layout, b: Layout)
    requires a.Dated() && b.Dated()
  {
    && a.date[2] == b.date[2] && a.date[3] == b.date[3]
    && a.date[5] == b.date[5] && a.date[6] == b.date[6]
    && a.date[8] == b.date[8] && a.date[9] == b.date[9]
  }

  lemma SameDigits(a: char, b: char, c: char, d: char)
    requires '0' <= a <= '9' && '0' <= b <= '9' && '0' <= c <= '9' && '0' <= d <= '9'
    ensures 16 * DigitOf(a) + DigitOf(b) == 16 * DigitOf(c) + DigitOf(d) <==> a == c && b == d
  {
  }

  /** A store that is valid for one build is valid for another with the same addresses exactly if both were built on the
      same day; so firmware of any other day resets it. */
  lemma ValidForSameDay(lay: Layout, other: Layout, d: Defaults, img: Image)
    requires lay.Dated() && other.Dated() && other.magicAddr == lay.magicAddr
    requires lay.End() <= |img| && other.End() <= |img| && IsValid(other, img)
    ensures IsValid(lay, img) <==> SameDay(lay, other)
    ensures Boot(lay, d, img) == if SameDay(lay, other) then img else ResetImage(lay, d, img)
  {
    MagicDigits(lay);
    MagicDigits(other);
    SameDigits(lay.date[2], lay.date[3], other.date[2], other.date[3]);
    SameDigits(lay.date[5], lay.date[6], other.date[5], other.date[6]);
    SameDigits(lay.date[8], lay.date[9], other.date[8], other.date[9]);
    InitResets(lay, d, img);
  }

  // ---------------------------------------------------------------- one encoder

  /** The keycode of an encoder is the big-endian pair at four times its rank, counted layer by layer, clockwise first. */
  lemma EncoderIsPair(lay: Layout, img: Image, layer: nat, id: nat, cw: bool)
    requires lay.End() <= |img| && IsEncoder(lay, layer, id)
    ensures var a := lay.EncoderAddr() + 4 * (layer * lay.encoders + id) + (if cw then 0 else 2);
            && a + 1 < lay.MacroAddr()
            && Encoder(lay, img, layer, id, cw) == 256 * (img[a] as nat) + img[a + 1] as nat
  {
    EncoderPlace(lay, layer, id, cw);
  }

  lemma EncodersApart(lay: Layout, layer: nat, id: nat, cw: bool, l2: nat, id2: nat, cw2: bool)
    requires IsEncoder(lay, layer, id) && IsEncoder(lay, l2, id2) && (l2, id2, cw2) != (layer, id, cw)
    ensures var a, b := EncoderAddr(lay, layer, id, cw), EncoderAddr(lay, l2, id2, cw2); a + 1 < b || b + 1 < a
  {
    EncoderPlace(lay, layer, id, cw);
    EncoderPlace(lay, l2, id2, cw2);
    var i, j := EncoderIndex(lay, layer, id), EncoderIndex(lay, l2, id2);
    if (layer, id) != (l2, id2) {
      assert i != j;
    }
  }

  /** Setting one direction of an encoder is read back there, and no other encoder or direction reads differently. */
  lemma SetEncoderReads(lay: Layout, img: Image, layer: nat, id: nat, cw: bool, w: Word, l2: nat, id2: nat, cw2: bool)
    requires lay.End() <= |img| && IsEncoder(lay, layer, id)
    ensures Encoder(lay, Apply(img, SetEncoder(lay, layer, id, cw, w)), l2, id2, cw2)
         == if (l2, id2, cw2) == (layer, id, cw) then w else Encoder(lay, img, l2, id2, cw2)
  {
    hide EncoderAddr, Apply, WordAt;
    EncoderFits(lay, img, layer, id, cw);
    PutWordReads(img, EncoderAddr(lay, layer, id, cw), w, EncoderAddr(lay, l2, id2, cw2));
    if IsEncoder(lay, l2, id2) && (l2, id2, cw2) != (layer, id, cw) {
      EncodersApart(lay, layer, id, cw, l2, id2, cw2);
    }
  }

  lemma EncoderFits(lay: Layout, img: Image, layer: nat, id: nat, cw: bool)
    requires lay.End() <= |img| && IsEncoder(lay, layer, id)
    ensures EncoderAddr(lay, layer, id, cw) + 1 < |img|
  {
    EncoderPlace(lay, layer, id, cw);
  }

  /** Setting an encoder, in range or not, changes no byte outside the encoder map. */
  lemma SetEncoderStays(lay: Layout, img: Image, layer: nat, id: nat, cw: bool, w: Word)
    requires lay.End() <= |img|
    ensures var img' := Apply(img, SetEncoder(lay, layer, id, cw, w));
            img'[..lay.EncoderAddr()] == img[..lay.EncoderAddr()] && img'[lay.MacroAddr()..] == img[lay.MacroAddr()..]
  {
    if IsEncoder(lay, layer, id) {
      EncoderPlace(lay, layer, id, cw);
      if lay.macroSize == 0 {
        ApplyWord(img, EncoderAddr(lay, layer, id, cw), w);
      } else {
        PutWordStays(img, EncoderAddr(lay, layer, id, cw), w, lay.EncoderAddr(), lay.MacroAddr());
      }
    }
  }
}
