/** The keymap seen two ways: by layer, row and column, and as a buffer of big-endian pairs. */
module KeymapProofs {
  import opened Bytes
  import opened Division
  import opened StoreModel

  // ---------------------------------------------------------------- addresses of keys

  lemma OffsetIsTwiceIndex(lay: Layout, layer: nat, row: nat, col: nat)
    ensures KeyOffset(lay, layer, row, col) == 2 * KeyIndex(lay, layer, row, col)
  {
    var a := layer * lay.rows;
    assert (a + row) * lay.cols == a * lay.cols + row * lay.cols;
  }

  function KeyCount(lay: Layout): nat { lay.layers * lay.rows * lay.cols }

  lemma IndexInRange(lay: Layout, layer: nat, row: nat, col: nat)
    requires IsKey(lay, layer, row, col)
    ensures KeyIndex(lay, layer, row, col) < KeyCount(lay)
    ensures KeyOffset(lay, layer, row, col) + 1 < lay.KeymapSize()
  {
    MulLess(layer, lay.layers, lay.rows, row);
    MulLess(layer * lay.rows + row, lay.layers * lay.rows, lay.cols, col);
    OffsetIsTwiceIndex(lay, layer, row, col);
  }

  /** The layer, row and column of the key of a given rank. */
  function KeyOf(lay: Layout, i: nat): (nat, nat, nat)
    requires lay.rows > 0 && lay.cols > 0
  {
    (i / lay.cols / lay.rows, i / lay.cols % lay.rows, i % lay.cols)
  }

  /** Ranks determine keys, so no two keys share an address. */
  lemma KeyOfIndex(lay: Layout, layer: nat, row: nat, col: nat)
    requires IsKey(lay, layer, row, col)
    ensures KeyOf(lay, KeyIndex(lay, layer, row, col)) == (layer, row, col)
  {
    DivMod(layer * lay.rows + row, col, lay.cols);
    DivMod(layer, row, lay.rows);
  }

  /** Every rank belongs to a key, so the keys tile the region without gaps. */
  lemma IndexOfKey(lay: Layout, i: nat)
    requires i < KeyCount(lay)
    ensures lay.rows > 0 && lay.cols > 0
    ensures var (layer, row, col) := KeyOf(lay, i);
            IsKey(lay, layer, row, col) && KeyIndex(lay, layer, row, col) == i
  {
    assert lay.rows == 0 ==> lay.layers * lay.rows == 0;
    DivBound(i, lay.layers * lay.rows, lay.cols);
    DivBound(i / lay.cols, lay.layers, lay.rows);
    assert i / lay.cols / lay.rows * lay.rows + i / lay.cols % lay.rows == i / lay.cols;
    assert i / lay.cols * lay.cols + i % lay.cols == i;
  }

  /** Distinct keys occupy disjoint pairs of bytes inside the keymap, and every byte of the keymap is the
      high or low byte of exactly one key. */
  lemma KeysTile(lay: Layout, a: nat)
    requires lay.KeymapAddr() <= a < lay.KeymapAddr() + lay.KeymapSize()
    ensures exists layer, row, col ::
              IsKey(lay, layer, row, col) && KeyAddr(lay, layer, row, col) <= a <= KeyAddr(lay, layer, row, col) + 1
  {
    var i := (a - lay.KeymapAddr()) / 2;
    IndexOfKey(lay, i);
    var (layer, row, col) := KeyOf(lay, i);
    OffsetIsTwiceIndex(lay, layer, row, col);
    assert IsKey(lay, layer, row, col) && KeyAddr(lay, layer, row, col) <= a <= KeyAddr(lay, layer, row, col) + 1;
  }

  lemma KeysDisjoint(lay: Layout, l1: nat, r1: nat, c1: nat, l2: nat, r2: nat, c2: nat)
    requires IsKey(lay, l1, r1, c1) && IsKey(lay, l2, r2, c2) && (l1, r1, c1) != (l2, r2, c2)
    ensures KeyAddr(lay, l1, r1, c1) + 1 < KeyAddr(lay, l2, r2, c2)
         || KeyAddr(lay, l2, r2, c2) + 1 < KeyAddr(lay, l1, r1, c1)
  {
    KeyOfIndex(lay, l1, r1, c1);
    KeyOfIndex(lay, l2, r2, c2);
    OffsetIsTwiceIndex(lay, l1, r1, c1);
    OffsetIsTwiceIndex(lay, l2, r2, c2);
  }

  // ---------------------------------------------------------------- the two views agree

  /** Reading key by key and reading the buffer give the same keymap: the pair at twice the key's rank, big end first. */
  lemma KeycodeIsBufferPair(lay: Layout, img: Image, layer: nat, row: nat, col: nat, offset: nat, size: nat)
    requires lay.End() <= |img| && IsKey(lay, layer, row, col)
    requires var o := 2 * ((layer * lay.rows + row) * lay.cols + col); offset <= o && o + 1 < offset + size
    ensures var b := Buffer(img, lay.KeymapAddr(), lay.KeymapSize(), offset, size);
            var i := 2 * ((layer * lay.rows + row) * lay.cols + col) - offset;
            Keycode(lay, img, layer, row, col) == 256 * (b[i] as nat) + b[i + 1] as nat
  {
    IndexInRange(lay, layer, row, col);
    OffsetIsTwiceIndex(lay, layer, row, col);
  }

  lemma ApplyAppend(img: Image, us: seq<Update>, u: Update)
    ensures Apply(img, us + [u]) == Put(Apply(img, us), u)
  {
    assert (us + [u])[..|us|] == us;
  }

  lemma {:induction false} ApplyConcat(img: Image, us: seq<Update>, vs: seq<Update>)
    ensures Apply(img, us + vs) == Apply(Apply(img, us), vs)
  {
    if vs == [] {
      assert us + vs == us;
    } else {
      var n := |vs| - 1;
      ApplyConcat(img, us, vs[..n]);
      assert us + vs == (us + vs[..n]) + [vs[n]];
      ApplyAppend(img, us + vs[..n], vs[n]);
    }
  }

  lemma ApplyWord(img: Image, addr: nat, w: Word)
    requires addr + 1 < |img|
    ensures Apply(img, PutWord(addr, w)) == img[addr := WordByte(w, 0)][addr + 1 := WordByte(w, 1)]
  {
    var u0, u1 := Update(addr, WordByte(w, 0)), Update(addr + 1, WordByte(w, 1));
    assert PutWord(addr, w) == [u0] + [u1];
    ApplyAppend(img, [u0], u1);
    assert [u0] == [] + [u0];
    ApplyAppend(img, [], u0);
  }

  lemma PutWordReads(img: Image, addr: nat, w: Word, other: nat)
    requires addr + 1 < |img|
    ensures var img' := Apply(img, PutWord(addr, w));
            && WordAt(img', addr) == w
            && (other + 1 < addr || addr + 1 < other ==> WordAt(img', other) == WordAt(img, other))
  {
    ApplyWord(img, addr, w);
    WordBytes(w);
  }

  lemma PutWordStays(img: Image, addr: nat, w: Word, from: nat, to: nat)
    requires from <= addr && addr + 1 < to <= |img|
    ensures var img' := Apply(img, PutWord(addr, w));
            img'[..from] == img[..from] && img'[to..] == img[to..]
  {
    ApplyWord(img, addr, w);
  }

  /** Setting a key is read back at that key, and at no other key. */
  lemma SetKeyReads(lay: Layout, img: Image, layer: nat, row: nat, col: nat, w: Word, l2: nat, r2: nat, c2: nat)
    requires lay.End() <= |img| && IsKey(lay, layer, row, col)
    ensures Keycode(lay, Apply(img, SetKey(lay, layer, row, col, w)), l2, r2, c2)
         == if (l2, r2, c2) == (layer, row, col) then w else Keycode(lay, img, l2, r2, c2)
  {
    IndexInRange(lay, layer, row, col);
    PutWordReads(img, KeyAddr(lay, layer, row, col), w, KeyAddr(lay, l2, r2, c2));
    if IsKey(lay, l2, r2, c2) && (l2, r2, c2) != (layer, row, col) {
      KeysDisjoint(lay, layer, row, col, l2, r2, c2);
    }
  }

  /** Setting a key, in range or not, changes no byte outside the keymap. */
  lemma SetKeyStays(lay: Layout, img: Image, layer: nat, row: nat, col: nat, w: Word)
    requires lay.End() <= |img|
    ensures var img' := Apply(img, SetKey(lay, layer, row, col, w));
            && img'[..lay.KeymapAddr()] == img[..lay.KeymapAddr()]
            && img'[lay.EncoderAddr()..] == img[lay.EncoderAddr()..]
  {
    if IsKey(lay, layer, row, col) {
      IndexInRange(lay, layer, row, col);
      PutWordStays(img, KeyAddr(lay, layer, row, col), w, lay.KeymapAddr(), lay.EncoderAddr());
    }
  }

  /** What address `a` holds after `n` bytes of data were written to a region through its buffer. */
  function Overwritten(img: Image, start: nat, limit: nat, offset: nat, data: seq<Byte>, n: nat, a: nat): Byte
    requires a < |img| && n <= |data|
  {
    if start + offset <= a < start + offset + n && a < start + limit then data[a - start - offset] else img[a]
  }

  /** `set_buffer` of any offset and size writes the bytes that fall in the region and no others. */
  lemma {:induction false} SetBufferExact(img: Image, start: nat, limit: nat, offset: nat, data: seq<Byte>, n: nat, a: nat)
    requires start + limit <= |img| && n <= |data| && a < |img|
    ensures Apply(img, SetBuffer(start, limit, offset, data, n))[a] == Overwritten(img, start, limit, offset, data, n, a)
  {
    if n > 0 {
      SetBufferExact(img, start, limit, offset, data, n - 1, a);
      var before := SetBuffer(start, limit, offset, data, n - 1);
      if offset + n - 1 < limit {
        ApplyAppend(img, before, Update(start + offset + n - 1, data[n - 1]));
      } else {
        assert SetBuffer(start, limit, offset, data, n) == before;
      }
    }
  }

  /** Reading any part of a region after a write through its buffer gives what was written where it was, what was there
      before elsewhere in the region, and zeros beyond the region. */
  lemma BufferReadsWritten(img: Image, start: nat, limit: nat, offset: nat, data: seq<Byte>, from: nat, size: nat, i: nat)
    requires start + limit <= |img| && i < size
    ensures var img' := Apply(img, SetBuffer(start, limit, offset, data, |data|));
            var p := from + i;
            Buffer(img', start, limit, from, size)[i]
            == if p >= limit then 0 else if offset <= p < offset + |data| then data[p - offset] else img[start + p]
  {
    if from + i < limit {
      SetBufferExact(img, start, limit, offset, data, |data|, start + from + i);
    }
  }

  lemma SetBufferFrame(img: Image, start: nat, limit: nat, offset: nat, data: seq<Byte>, us: seq<Update>)
    requires start + limit <= |img| && us == SetBuffer(start, limit, offset, data, |data|)
    ensures Apply(img, us)[..start] == img[..start] && Apply(img, us)[start + limit..] == img[start + limit..]
  {
    var img' := Apply(img, us);
    forall a: nat | a < |img| && (a < start || start + limit <= a) ensures img'[a] == img[a] {
      SetBufferExact(img, start, limit, offset, data, |data|, a);
    }
  }

  /** No write to the keymap buffer, of any offset and size, touches what lies before or after it. */
  lemma SetBufferStays(lay: Layout, img: Image, offset: nat, data: seq<Byte>)
    requires lay.End() <= |img|
    ensures var img' := Apply(img, SetBuffer(lay.KeymapAddr(), lay.KeymapSize(), offset, data, |data|));
            && img'[..lay.KeymapAddr()] == img[..lay.KeymapAddr()]
            && img'[lay.EncoderAddr()..] == img[lay.EncoderAddr()..]
  {
    SetBufferFrame(img, lay.KeymapAddr(), lay.KeymapSize(), offset, data,
                   SetBuffer(lay.KeymapAddr(), lay.KeymapSize(), offset, data, |data|));
  }

  /** Byte `o` of a keymap held in a buffer: keys in order of rank, big end first. */
  function KeymapByte(lay: Layout, key: (nat, nat, nat) -> Word, o: nat): Byte
    requires lay.rows > 0 && lay.cols > 0
  {
    var (layer, row, col) := KeyOf(lay, o / 2);
    WordByte(key(layer, row, col), o % 2)
  }

  function EncodeKeymap(lay: Layout, key: (nat, nat, nat) -> Word): (data: seq<Byte>)
    requires lay.rows > 0 && lay.cols > 0
    ensures |data| == lay.KeymapSize()
  {
    seq(lay.KeymapSize(), o requires 0 <= o < lay.KeymapSize() => KeymapByte(lay, key, o))
  }

  lemma KeymapBytes(lay: Layout, key: (nat, nat, nat) -> Word, layer: nat, row: nat, col: nat)
    requires IsKey(lay, layer, row, col)
    ensures var o := KeyOffset(lay, layer, row, col);
            && KeymapByte(lay, key, o) == WordByte(key(layer, row, col), 0)
            && KeymapByte(lay, key, o + 1) == WordByte(key(layer, row, col), 1)
  {
    var i := KeyIndex(lay, layer, row, col);
    OffsetIsTwiceIndex(lay, layer, row, col);
    KeyOfIndex(lay, layer, row, col);
    assert 2 * i / 2 == i == (2 * i + 1) / 2;
  }

  lemma WrittenPair(img: Image, start: nat, data: seq<Byte>, o: nat, us: seq<Update>)
    requires start + |data| <= |img| && o + 1 < |data| && us == SetBuffer(start, |data|, 0, data, |data|)
    ensures WordAt(Apply(img, us), start + o) == ToWord(data[o], data[o + 1])
  {
    SetBufferExact(img, start, |data|, 0, data, |data|, start + o);
    SetBufferExact(img, start, |data|, 0, data, |data|, start + o + 1);
  }

  /** A keymap sent through the buffer is read back key by key. */
  lemma BufferRoundTrip(lay: Layout, img: Image, key: (nat, nat, nat) -> Word, layer: nat, row: nat, col: nat)
    requires lay.End() <= |img| && IsKey(lay, layer, row, col)
    ensures var data := EncodeKeymap(lay, key);
            var img' := Apply(img, SetBuffer(lay.KeymapAddr(), lay.KeymapSize(), 0, data, |data|));
            Keycode(lay, img', layer, row, col) == key(layer, row, col)
  {
    hide KeyOffset, SetBuffer, Apply;
    var o := KeyOffset(lay, layer, row, col);
    IndexInRange(lay, layer, row, col);
    KeymapBytes(lay, key, layer, row, col);
    var data := EncodeKeymap(lay, key);
    WrittenPair(img, lay.KeymapAddr(), data, o, SetBuffer(lay.KeymapAddr(), lay.KeymapSize(), 0, data, |data|));
    WordBytes(key(layer, row, col));
  }
}
