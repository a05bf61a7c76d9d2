/** Bytes and big-endian pairs. */
module Bytes {
  type Byte = b: nat | b < 256
  type Word = w: nat | w < 65536

  /** Byte 0 (high) or 1 (low) of a 16-bit value. */
  function WordByte(w: Word, i: nat): (b: Byte) {
    if i == 0 then w / 256 else w % 256
  }

  function ToWord(hi: Byte, lo: Byte): (w: Word)
    ensures WordByte(w, 0) == hi && WordByte(w, 1) == lo
  {
    hi * 256 + lo
  }

  lemma WordBytes(w: Word)
    ensures ToWord(WordByte(w, 0), WordByte(w, 1)) == w
  {
  }
}
