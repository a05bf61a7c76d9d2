/** The layout and the byte updates of the persistent keymap, macro and VIA store
    (quantum/dynamic_keymap.c, quantum/via.c), on values. */
module StoreModel {
  import opened Bytes

  /** The contents of the EEPROM. */
  type Image = seq<Byte>

  /** One `eeprom_update_byte`. */
  datatype Update = Update(addr: nat, value: Byte)

  function Put(img: Image, u: Update): (r: Image)
    ensures |r| == |img|
  {
    if u.addr < |img| then img[u.addr := u.value] else img
  }

  function Apply(img: Image, us: seq<Update>): (r: Image)
    ensures |r| == |img|
    decreases |us|
  {
    if us == [] then img else Put(Apply(img, us[..|us| - 1]), us[|us| - 1])
  }

  /** A build: where the store lies, what it holds, and the build date ("2019-11-05-11:29:54"). */
  datatype Layout = Layout(magicAddr: nat, optionsSize: nat, customSize: nat,
                           layers: nat, rows: nat, cols: nat, encoders: nat, macroSize: nat, date: string)
  {
    function OptionsAddr(): nat { magicAddr + 3 }
    function CustomAddr(): nat { OptionsAddr() + optionsSize }
    function KeymapAddr(): nat { CustomAddr() + customSize }
    function KeymapSize(): nat { layers * rows * cols * 2 }
    function EncoderAddr(): nat { KeymapAddr() + KeymapSize() }
    function EncoderSize(): nat { layers * encoders * 2 * 2 }
    function MacroAddr(): nat { EncoderAddr() + EncoderSize() }
    function End(): nat { MacroAddr() + macroSize }

    /** The build date has decimal digits where the magic bytes come from. */
    predicate Dated() {
      |date| >= 10 && forall i :: i in {2, 3, 5, 6, 8, 9} ==> '0' <= date[i] <= '9'
    }

    /** `magic0`, `magic1` and `magic2`: two date digits each, in binary coded decimal. */
    function Magic(i: nat): (m: Byte)
      requires Dated() && i < 3
      ensures m != 0xFF
    {
      (date[2 + 3 * i] as int % 16) * 16 + date[3 + 3 * i] as int % 16
    }
  }

  // ---------------------------------------------------------------- addresses

  /** `dynamic_keymap_key_to_eeprom_address`, from the start of the keymap. */
  function KeyOffset(lay: Layout, layer: nat, row: nat, col: nat): nat {
    layer * lay.rows * lay.cols * 2 + row * lay.cols * 2 + col * 2
  }

  function KeyAddr(lay: Layout, layer: nat, row: nat, col: nat): nat {
    lay.KeymapAddr() + KeyOffset(lay, layer, row, col)
  }

  /** The rank of a key in layer, row, column order. */
  function KeyIndex(lay: Layout, layer: nat, row: nat, col: nat): nat {
    (layer * lay.rows + row) * lay.cols + col
  }

  predicate IsKey(lay: Layout, layer: nat, row: nat, col: nat) {
    layer < lay.layers && row < lay.rows && col < lay.cols
  }

  /** `dynamic_keymap_encoder_to_eeprom_address`, plus the place of the direction. */
  function EncoderAddr(lay: Layout, layer: nat, id: nat, clockwise: bool): nat {
    lay.EncoderAddr() + layer * lay.encoders * 2 * 2 + id * 2 * 2 + (if clockwise then 0 else 2)
  }

  predicate IsEncoder(lay: Layout, layer: nat, id: nat) {
    layer < lay.layers && id < lay.encoders
  }

  // ---------------------------------------------------------------- reading

  function WordAt(img: Image, addr: nat): Word {
    if addr + 1 < |img| then ToWord(img[addr], img[addr + 1]) else 0
  }

  /** `dynamic_keymap_get_keycode`. */
  function Keycode(lay: Layout, img: Image, layer: nat, row: nat, col: nat): Word {
    if IsKey(lay, layer, row, col) then WordAt(img, KeyAddr(lay, layer, row, col)) else 0
  }

  /** `dynamic_keymap_get_encoder`. */
  function Encoder(lay: Layout, img: Image, layer: nat, id: nat, clockwise: bool): Word {
    if IsEncoder(lay, layer, id) then WordAt(img, EncoderAddr(lay, layer, id, clockwise)) else 0
  }

  /** A `get_buffer` over a region of `limit` bytes at `start`: zeros beyond the region. */
  function Buffer(img: Image, start: nat, limit: nat, offset: nat, size: nat): (data: seq<Byte>)
    requires start + limit <= |img|
    ensures |data| == size
  {
    seq(size, i requires 0 <= i < size => if offset + i < limit then img[start + offset + i] else 0)
  }

  /** `via_get_layout_options`, most significant byte first, in uint32_t. */
  function Options(img: Image, from: nat, n: nat): nat {
    if n == 0 then 0
    else (Options(img, from, n - 1) * 256 + (if from + n - 1 < |img| then img[from + n - 1] else 0)) % 0x1_0000_0000
  }

  /** `via_eeprom_is_valid`. */
  predicate IsValid(lay: Layout, img: Image)
    requires lay.Dated() && lay.End() <= |img|
  {
    && img[lay.magicAddr] == lay.Magic(0)
    && img[lay.magicAddr + 1] == lay.Magic(1)
    && img[lay.magicAddr + 2] == lay.Magic(2)
  }

  // ---------------------------------------------------------------- writing

  function PutWord(addr: nat, w: Word): seq<Update> {
    [Update(addr, WordByte(w, 0)), Update(addr + 1, WordByte(w, 1))]
  }

  /** `dynamic_keymap_set_keycode`. */
  function SetKey(lay: Layout, layer: nat, row: nat, col: nat, w: Word): seq<Update> {
    if IsKey(lay, layer, row, col) then PutWord(KeyAddr(lay, layer, row, col), w) else []
  }

  /** `dynamic_keymap_set_encoder`. */
  function SetEncoder(lay: Layout, layer: nat, id: nat, clockwise: bool, w: Word): seq<Update> {
    if IsEncoder(lay, layer, id) then PutWord(EncoderAddr(lay, layer, id, clockwise), w) else []
  }

  /** A `set_buffer` over a region: the first `n` bytes of `data`, those beyond the region dropped. */
  function SetBuffer(start: nat, limit: nat, offset: nat, data: seq<Byte>, n: nat): seq<Update>
    requires n <= |data|
  {
    if n == 0 then []
    else SetBuffer(start, limit, offset, data, n - 1)
         + (if offset + n - 1 < limit then [Update(start + offset + n - 1, data[n - 1])] else [])
  }

  /** `via_eeprom_set_valid`. */
  function SetValid(lay: Layout, valid: bool): (us: seq<Update>)
    requires lay.Dated()
    ensures |us| == 3
  {
    [Update(lay.magicAddr, if valid then lay.Magic(0) else 0xFF),
     Update(lay.magicAddr + 1, if valid then lay.Magic(1) else 0xFF),
     Update(lay.magicAddr + 2, if valid then lay.Magic(2) else 0xFF)]
  }

  function Shifted(value: nat, n: nat): nat {
    if n == 0 then value else Shifted(value, n - 1) / 256
  }

  /** `via_set_layout_options`: the `n` least significant bytes, least significant first. */
  function SetOptions(lay: Layout, value: nat, n: nat): seq<Update>
    requires n <= lay.optionsSize
  {
    if n == 0 then []
    else SetOptions(lay, value, n - 1) + [Update(lay.OptionsAddr() + lay.optionsSize - n, Shifted(value, n - 1) % 256)]
  }

  /** What a reset restores. */
  datatype Defaults = Defaults(options: nat, key: (nat, nat, nat) -> Word, encoder: (nat, nat, bool) -> Word)

  /** The first `n` columns of a row, in the order of `dynamic_keymap_reset`. */
  function ResetCols(lay: Layout, d: Defaults, layer: nat, row: nat, n: nat): seq<Update> {
    if n == 0 then []
    else ResetCols(lay, d, layer, row, n - 1) + SetKey(lay, layer, row, n - 1, d.key(layer, row, n - 1))
  }

  function ResetRows(lay: Layout, d: Defaults, layer: nat, n: nat): seq<Update> {
    if n == 0 then [] else ResetRows(lay, d, layer, n - 1) + ResetCols(lay, d, layer, n - 1, lay.cols)
  }

  function ResetEncoder(lay: Layout, d: Defaults, layer: nat, id: nat): seq<Update> {
    SetEncoder(lay, layer, id, true, d.encoder(layer, id, true))
    + SetEncoder(lay, layer, id, false, d.encoder(layer, id, false))
  }

  function ResetEncoders(lay: Layout, d: Defaults, layer: nat, n: nat): seq<Update> {
    if n == 0 then [] else ResetEncoders(lay, d, layer, n - 1) + ResetEncoder(lay, d, layer, n - 1)
  }

  function ResetLayer(lay: Layout, d: Defaults, layer: nat): seq<Update> {
    ResetRows(lay, d, layer, lay.rows) + ResetEncoders(lay, d, layer, lay.encoders)
  }

  /** The first `n` layers of `dynamic_keymap_reset`. */
  function ResetLayers(lay: Layout, d: Defaults, n: nat): seq<Update> {
    if n == 0 then []
    else ResetLayers(lay, d, n - 1) + ResetLayer(lay, d, n - 1)
  }

  /** The first `n` bytes of `dynamic_keymap_macro_reset`. */
  function ResetMacros(lay: Layout, n: nat): seq<Update> {
    if n == 0 then [] else ResetMacros(lay, n - 1) + [Update(lay.MacroAddr() + n - 1, 0)]
  }

  /** Everything `eeconfig_init_via` writes between invalidating and validating the store. */
  function InitBody(lay: Layout, d: Defaults): seq<Update> {
    SetOptions(lay, d.options, lay.optionsSize) + ResetLayers(lay, d, lay.layers) + ResetMacros(lay, lay.macroSize)
  }

  /** The byte updates of `eeconfig_init_via`, in order. */
  function InitVia(lay: Layout, d: Defaults): seq<Update>
    requires lay.Dated()
  {
    SetValid(lay, false) + InitBody(lay, d) + SetValid(lay, true)
  }

  /** `via_init`: the image after booting. */
  function Boot(lay: Layout, d: Defaults, img: Image): Image
    requires lay.Dated() && lay.End() <= |img|
  {
    if IsValid(lay, img) then img else Apply(img, InitVia(lay, d))
  }
}
