/** The persistent keymap, macro and VIA store of quantum/dynamic_keymap.c and quantum/via.c: an EEPROM
    updated byte by byte, proved to make the updates and to return the values that `StoreModel` and
    `MacroModel` give. */
module Store {
  import opened Bytes
  import opened StoreModel
  import opened MacroModel
  import opened Optional
  import Division
  import KeymapProofs

  /** An image and the updates made to it so far. */
  datatype Trail = Trail(img: Image, updates: seq<Update>) {
    ghost predicate Then(us: seq<Update>, next: Trail) {
      next.img == Apply(img, us) && next.updates == updates + us
    }
  }

  lemma Chain(t0: Trail, us: seq<Update>, t1: Trail, vs: seq<Update>, t2: Trail)
    requires t0.Then(us, t1) && t1.Then(vs, t2)
    ensures t0.Then(us + vs, t2)
  {
    KeymapProofs.ApplyConcat(t0.img, us, vs);
  }

  class KeymapStore {
    const lay: Layout
    const mem: array<Byte>
    /** Every byte update so far, in order. */
    ghost var updates: seq<Update>

    ghost predicate Valid()
    {
      lay.Dated() && lay.End() <= mem.Length
    }

    constructor (lay: Layout, size: nat)
      requires lay.Dated() && lay.End() <= size
      ensures Valid() && fresh(mem) && this.lay == lay && mem.Length == size && updates == []
    {
      this.lay := lay;
      mem := new Byte[size](_ => 0xFF);
      updates := [];
    }

    ghost function Now(): Trail
      reads this, mem
    {
      Trail(mem[..], updates)
    }

    method UpdateByte(addr: nat, value: Byte)
      requires addr < mem.Length
      modifies mem, this`updates
      ensures old(Now()).Then([Update(addr, value)], Now())
    {
      KeymapProofs.ApplyAppend(mem[..], [], Update(addr, value));
      assert [] + [Update(addr, value)] == [Update(addr, value)];
      if mem[addr] != value {
        mem[addr] := value;
      }
      updates := updates + [Update(addr, value)];
    }

    method UpdateWord(addr: nat, w: Word)
      requires addr + 1 < mem.Length
      modifies mem, this`updates
      ensures old(Now()).Then(PutWord(addr, w), Now())
    {
      ghost var t0 := Now();
      UpdateByte(addr, w / 256);
      ghost var t1 := Now();
      UpdateByte(addr + 1, w % 256);
      Chain(t0, [Update(addr, w / 256)], t1, [Update(addr + 1, w % 256)], Now());
    }

    // -------------------------------------------------------------- keys and encoders

    method GetKeycode(layer: nat, row: nat, col: nat) returns (w: Word)
      requires Valid()
      ensures w == Keycode(lay, mem[..], layer, row, col)
    {
      if layer >= lay.layers || row >= lay.rows || col >= lay.cols {
        return 0;
      }
      KeymapProofs.IndexInRange(lay, layer, row, col);
      var address := KeyAddr(lay, layer, row, col);
      w := ToWord(mem[address], mem[address + 1]);
    }

    method SetKeycode(layer: nat, row: nat, col: nat, w: Word)
      requires Valid()
      modifies mem, this`updates
      ensures old(Now()).Then(SetKey(lay, layer, row, col, w), Now())
    {
      if layer >= lay.layers || row >= lay.rows || col >= lay.cols {
        return;
      }
      KeymapProofs.IndexInRange(lay, layer, row, col);
      UpdateWord(KeyAddr(lay, layer, row, col), w);
    }

    method GetEncoder(layer: nat, id: nat, clockwise: bool) returns (w: Word)
      requires Valid()
      ensures w == Encoder(lay, mem[..], layer, id, clockwise)
    {
      if layer >= lay.layers || id >= lay.encoders {
        return 0;
      }
      EncoderInRange(lay, layer, id);
      var address := EncoderAddr(lay, layer, id, clockwise);
      w := ToWord(mem[address], mem[address + 1]);
    }

    method SetEncoderKeycode(layer: nat, id: nat, clockwise: bool, w: Word)
      requires Valid()
      modifies mem, this`updates
      ensures old(Now()).Then(SetEncoder(lay, layer, id, clockwise, w), Now())
    {
      if layer >= lay.layers || id >= lay.encoders {
        return;
      }
      EncoderInRange(lay, layer, id);
      UpdateWord(EncoderAddr(lay, layer, id, clockwise), w);
    }

    // -------------------------------------------------------------- reset

    method ResetRow(d: Defaults, layer: nat, row: nat)
      requires Valid()
      modifies mem, this`updates
      ensures old(Now()).Then(ResetCols(lay, d, layer, row, lay.cols), Now())
    {
      ghost var t0 := Now();
      for col := 0 to lay.cols
        invariant t0.Then(ResetCols(lay, d, layer, row, col), Now())
      {
        ghost var t1 := Now();
        SetKeycode(layer, row, col, d.key(layer, row, col));
        Chain(t0, ResetCols(lay, d, layer, row, col), t1, SetKey(lay, layer, row, col, d.key(layer, row, col)), Now());
      }
    }

    method ResetKeys(d: Defaults, layer: nat)
      requires Valid()
      modifies mem, this`updates
      ensures old(Now()).Then(ResetRows(lay, d, layer, lay.rows), Now())
    {
      ghost var t0 := Now();
      for row := 0 to lay.rows
        invariant t0.Then(ResetRows(lay, d, layer, row), Now())
      {
        ghost var t1 := Now();
        ResetRow(d, layer, row);
        Chain(t0, ResetRows(lay, d, layer, row), t1, ResetCols(lay, d, layer, row, lay.cols), Now());
      }
    }

    method ResetBothDirections(d: Defaults, layer: nat, id: nat)
      requires Valid()
      modifies mem, this`updates
      ensures old(Now()).Then(ResetEncoder(lay, d, layer, id), Now())
    {
      ghost var t0 := Now();
      SetEncoderKeycode(layer, id, true, d.encoder(layer, id, true));
      ghost var t1 := Now();
      SetEncoderKeycode(layer, id, false, d.encoder(layer, id, false));
      Chain(t0, SetEncoder(lay, layer, id, true, d.encoder(layer, id, true)), t1,
            SetEncoder(lay, layer, id, false, d.encoder(layer, id, false)), Now());
    }

    method ResetLayerEncoders(d: Defaults, layer: nat)
      requires Valid()
      modifies mem, this`updates
      ensures old(Now()).Then(ResetEncoders(lay, d, layer, lay.encoders), Now())
    {
      ghost var t0 := Now();
      for id := 0 to lay.encoders
        invariant t0.Then(ResetEncoders(lay, d, layer, id), Now())
      {
        ghost var t1 := Now();
        ResetBothDirections(d, layer, id);
        Chain(t0, ResetEncoders(lay, d, layer, id), t1, ResetEncoder(lay, d, layer, id), Now());
      }
    }

    method ResetOneLayer(d: Defaults, layer: nat)
      requires Valid()
      modifies mem, this`updates
      ensures old(Now()).Then(ResetLayer(lay, d, layer), Now())
    {
      ghost var t0 := Now();
      ResetKeys(d, layer);
      ghost var t1 := Now();
      ResetLayerEncoders(d, layer);
      Chain(t0, ResetRows(lay, d, layer, lay.rows), t1, ResetEncoders(lay, d, layer, lay.encoders), Now());
    }

    /** `dynamic_keymap_reset`. */
    method Reset(d: Defaults)
      requires Valid()
      modifies mem, this`updates
      ensures old(Now()).Then(ResetLayers(lay, d, lay.layers), Now())
    {
      ghost var t0 := Now();
      for layer := 0 to lay.layers
        invariant t0.Then(ResetLayers(lay, d, layer), Now())
      {
        ghost var t1 := Now();
        ResetOneLayer(d, layer);
        Chain(t0, ResetLayers(lay, d, layer), t1, ResetLayer(lay, d, layer), Now());
      }
    }

    /** `dynamic_keymap_macro_reset`. */
    method MacroReset()
      requires Valid()
      modifies mem, this`updates
      ensures old(Now()).Then(ResetMacros(lay, lay.macroSize), Now())
    {
      ghost var t0 := Now();
      var p := lay.MacroAddr();
      var end := lay.MacroAddr() + lay.macroSize;
      while p != end
        invariant lay.MacroAddr() <= p <= end
        invariant t0.Then(ResetMacros(lay, p - lay.MacroAddr()), Now())
        decreases end - p
      {
        ghost var t1 := Now();
        UpdateByte(p, 0);
        Chain(t0, ResetMacros(lay, p - lay.MacroAddr()), t1, [Update(p, 0)], Now());
        p := p + 1;
      }
    }

    // -------------------------------------------------------------- buffers

    /** `dynamic_keymap_get_buffer` and `dynamic_keymap_macro_get_buffer`: a region read as bytes. */
    method GetBuffer(start: nat, limit: nat, offset: nat, size: nat, data: array<Byte>)
      requires start + limit <= mem.Length && size <= data.Length && data != mem
      modifies data
      ensures data[..size] == Buffer(mem[..], start, limit, offset, size)
      ensures data[size..] == old(data[size..])
    {
      var source := start + offset;
      for i := 0 to size
        invariant source == start + offset + i
        invariant data[..i] == Buffer(mem[..], start, limit, offset, i)
        invariant data[size..] == old(data[size..])
      {
        if offset + i < limit {
          data[i] := mem[source];
        } else {
          data[i] := 0;
        }
        source := source + 1;
        assert data[..i + 1] == data[..i] + [data[i]];
      }
    }

    /** Updates a byte of a region, unless it lies beyond its end. */
    method UpdateInside(start: nat, limit: nat, target: nat, value: Byte)
      requires start + limit <= mem.Length && start <= target
      modifies mem, this`updates
      ensures old(Now()).Then(if target < start + limit then [Update(target, value)] else [], Now())
    {
      if target < start + limit {
        UpdateByte(target, value);
      }
    }

    /** `dynamic_keymap_set_buffer` and `dynamic_keymap_macro_set_buffer`: a region written as bytes. */
    method WriteBuffer(start: nat, limit: nat, offset: nat, size: nat, data: array<Byte>)
      requires start + limit <= mem.Length && size <= data.Length && data != mem
      modifies mem, this`updates
      ensures old(Now()).Then(SetBuffer(start, limit, offset, data[..], size), Now())
    {
      ghost var t0, bytes := Now(), data[..];
      var target := start + offset;
      for i := 0 to size
        invariant target == start + offset + i && data[..] == bytes
        invariant t0.Then(SetBuffer(start, limit, offset, bytes, i), Now())
      {
        ghost var t1 := Now();
        UpdateInside(start, limit, target, data[i]);
        Chain(t0, SetBuffer(start, limit, offset, bytes, i), t1,
              if offset + i < limit then [Update(target, bytes[i])] else [], Now());
        target := target + 1;
      }
    }

    // -------------------------------------------------------------- VIA

    /** `via_eeprom_is_valid`. */
    method EepromIsValid() returns (ok: bool)
      requires Valid()
      ensures ok == IsValid(lay, mem[..])
    {
      ok := mem[lay.magicAddr] == lay.Magic(0) && mem[lay.magicAddr + 1] == lay.Magic(1)
            && mem[lay.magicAddr + 2] == lay.Magic(2);
    }

    /** `via_eeprom_set_valid`. */
    method EepromSetValid(valid: bool)
      requires Valid()
      modifies mem, this`updates
      ensures old(Now()).Then(SetValid(lay, valid), Now())
    {
      ghost var us, t0 := SetValid(lay, valid), Now();
      UpdateByte(lay.magicAddr, if valid then lay.Magic(0) else 0xFF);
      ghost var t1 := Now();
      UpdateByte(lay.magicAddr + 1, if valid then lay.Magic(1) else 0xFF);
      Chain(t0, [us[0]], t1, [us[1]], Now());
      ghost var t2 := Now();
      UpdateByte(lay.magicAddr + 2, if valid then lay.Magic(2) else 0xFF);
      Chain(t0, [us[0]] + [us[1]], t2, [us[2]], Now());
      assert us == [us[0]] + [us[1]] + [us[2]];
    }

    /** `via_get_layout_options`. */
    method GetLayoutOptions() returns (value: nat)
      requires Valid()
      ensures value == Options(mem[..], lay.OptionsAddr(), lay.optionsSize)
    {
      value := 0;
      var source := lay.OptionsAddr();
      for i := 0 to lay.optionsSize
        invariant source == lay.OptionsAddr() + i && value == Options(mem[..], lay.OptionsAddr(), i)
      {
        value := (value * 256 + mem[source]) % 0x1_0000_0000;
        source := source + 1;
      }
    }

    /** `via_set_layout_options`. */
    method SetLayoutOptions(value: nat)
      requires Valid()
      modifies mem, this`updates
      ensures old(Now()).Then(SetOptions(lay, value, lay.optionsSize), Now())
    {
      ghost var t0 := Now();
      var target: int := lay.OptionsAddr() + lay.optionsSize - 1;
      var v := value;
      for i := 0 to lay.optionsSize
        invariant target == lay.OptionsAddr() + lay.optionsSize - 1 - i && v == Shifted(value, i)
        invariant t0.Then(SetOptions(lay, value, i), Now())
      {
        ghost var t1 := Now();
        UpdateByte(target, v % 256);
        Chain(t0, SetOptions(lay, value, i), t1, [Update(target, v % 256)], Now());
        v := v / 256;
        target := target - 1;
      }
    }

    method ResetBody(d: Defaults)
      requires Valid()
      modifies mem, this`updates
      ensures old(Now()).Then(InitBody(lay, d), Now())
    {
      ghost var t0 := Now();
      ghost var a, b := SetOptions(lay, d.options, lay.optionsSize), ResetLayers(lay, d, lay.layers);
      SetLayoutOptions(d.options);
      ghost var t1 := Now();
      Reset(d);
      ghost var t2 := Now();
      Chain(t0, a, t1, b, t2);
      MacroReset();
      Chain(t0, a + b, t2, ResetMacros(lay, lay.macroSize), Now());
    }

    /** `eeconfig_init_via`. */
    method EeconfigInitVia(d: Defaults)
      requires Valid()
      modifies mem, this`updates
      ensures old(Now()).Then(InitVia(lay, d), Now())
    {
      ghost var t0, a, b := Now(), SetValid(lay, false), InitBody(lay, d);
      EepromSetValid(false);
      ghost var t1 := Now();
      ResetBody(d);
      ghost var t2 := Now();
      Chain(t0, a, t1, b, t2);
      EepromSetValid(true);
      Chain(t0, a + b, t2, SetValid(lay, true), Now());
    }

    /** `via_init`. */
    method ViaInit(d: Defaults)
      requires Valid()
      modifies mem, this`updates
      ensures mem[..] == Boot(lay, d, old(mem[..]))
      ensures updates == old(updates) + (if IsValid(lay, old(mem[..])) then [] else InitVia(lay, d))
    {
      var ok := EepromIsValid();
      if !ok {
        EeconfigInitVia(d);
      }
    }

    // -------------------------------------------------------------- macros

    /** One turn of the player's loop up to the string to send: the token at `p`, read into `data`. */
    method FetchToken(buf: seq<Byte>, p0: nat, data: array<Byte>) returns (token: Token)
      requires data.Length == SCRATCH
      modifies data
      ensures token == ReadToken(buf, p0, old(data[..]))
      ensures token.Token? ==> token.scratch == data[..]
    {
      var p := p0;
      if p >= |buf| { return Stop(Overrun, p); }
      data[0] := buf[p];
      p := p + 1;
      data[1] := 0;
      if data[0] == 0 { return Stop(Done, p); }
      if data[0] == SS_QMK_PREFIX {
        if p >= |buf| { return Stop(Overrun, p); }
        data[1] := buf[p];
        p := p + 1;
        if data[1] == 0 { return Stop(Aborted, p); }
        if data[1] == SS_TAP_CODE || data[1] == SS_DOWN_CODE || data[1] == SS_UP_CODE {
          if p >= |buf| { return Stop(Overrun, p); }
          data[2] := buf[p];
          p := p + 1;
          if data[2] == 0 { return Stop(Aborted, p); }
          data[3] := 0;
        } else if data[1] == SS_DELAY_CODE {
          token := FetchDelay(buf, p, data);
          return;
        }
      }
      return Token(data[..], p);
    }

    /** The number of a delay and its bar. */
    method FetchDelay(buf: seq<Byte>, p0: nat, data: array<Byte>) returns (token: Token)
      requires data.Length == SCRATCH
      modifies data
      ensures token == DelayToken(buf, p0, old(data[..]), 2)
      ensures token.Token? ==> token.scratch == data[..]
    {
      var p: nat, i: nat := p0, 2;
      while true
        invariant 2 <= i <= 6
        invariant DelayToken(buf, p, data[..], i) == DelayToken(buf, p0, old(data[..]), 2)
        decreases 7 - i
      {
        if p >= |buf| { return Stop(Overrun, p); }
        data[i] := buf[p];
        p := p + 1;
        if data[i] == 0 { return Stop(Aborted, p); }
        if data[i] == BAR {
          data[i + 1] := 0;
          return Token(data[..], p);
        }
        if i == 6 { return Stop(Aborted, p); }
        i := i + 1;
      }
    }

    /** `dynamic_keymap_macro_send`, stopping where the original would read past the macro buffer. */
    method MacroSend(count: nat, id: nat) returns (sent: Sent)
      requires Valid()
      ensures sent == MacroModel.MacroSend(mem[lay.MacroAddr()..lay.End()], count, id)
    {
      var buf := mem[lay.MacroAddr()..lay.End()];
      if id >= count || |buf| == 0 || buf[|buf| - 1] != 0 {
        return Sent([], Ignored, 0);
      }
      var p, left := 0, id;
      while left > 0
        invariant p <= |buf| && Skip(buf, p, left) == Skip(buf, 0, id)
        decreases |buf| - p
      {
        if p == |buf| {
          return Sent([], Ignored, |buf|);
        }
        if buf[p] == 0 {
          left := left - 1;
        }
        p := p + 1;
      }
      sent := Play(buf, p);
    }

    /** Plays the string at `start`, token by token, through the scratch array. */
    method Play(buf: seq<Byte>, start: nat) returns (sent: Sent)
      ensures sent == SendFrom(buf, start, BLANK)
    {
      var data := new Byte[SCRATCH](_ => 0);
      assert data[..] == BLANK;
      ghost var whole := SendFrom(buf, start, BLANK);
      var p := start;
      var chunks: seq<seq<Byte>> := [];
      while true
        invariant data.Length == SCRATCH && Ahead(buf, whole, chunks, p, data[..])
        decreases |buf| - p
      {
        ghost var before := data[..];
        var token := FetchToken(buf, p, data);
        AheadUnfolds(buf, whole, chunks, p, before);
        if token.Stop? {
          return Sent(chunks, token.status, token.stop);
        }
        chunks := chunks + [CString(data[..])];
        p := token.next;
      }
    }
  }

  /** After `chunks` were sent, playing on from `p` with scratch contents `data` completes the whole macro. */
  ghost predicate Ahead(buf: seq<Byte>, whole: Sent, chunks: seq<seq<Byte>>, p: nat, data: seq<Byte>)
    requires |data| == SCRATCH
  {
    var rest := SendFrom(buf, p, data);
    whole == rest.(chunks := chunks + rest.chunks)
  }

  lemma AheadUnfolds(buf: seq<Byte>, whole: Sent, chunks: seq<seq<Byte>>, p: nat, data: seq<Byte>)
    requires |data| == SCRATCH && Ahead(buf, whole, chunks, p, data)
    ensures match ReadToken(buf, p, data)
            case Stop(status, stop) => whole == Sent(chunks, status, stop)
            case Token(scratch, next) => Ahead(buf, whole, chunks + [CString(scratch)], next, scratch)
  {
    match ReadToken(buf, p, data)
    case Stop(_, _) =>
      assert chunks + [] == chunks;
    case Token(scratch, next) =>
      var rest := SendFrom(buf, next, scratch).chunks;
      assert chunks + ([CString(scratch)] + rest) == chunks + [CString(scratch)] + rest;
  }

  lemma EncoderInRange(lay: Layout, layer: nat, id: nat)
    requires IsEncoder(lay, layer, id)
    ensures EncoderAddr(lay, layer, id, false) + 1 < lay.MacroAddr()
    ensures EncoderAddr(lay, layer, id, true) + 1 < lay.MacroAddr()
  {
    Division.MulLess(layer, lay.layers, lay.encoders, id);
  }
}
