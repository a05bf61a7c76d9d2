/** Decoding files of one family whose blocks may carry any number of payload bytes, and may be marked as not meant for
    flash memory. */
module Uf2Lengths {
  import opened Bytes
  import opened Optional
  import opened Uf2Model
  import opened Uf2Proofs

  /** The block is marked as not meant for flash memory. */
  predicate Aside(b: Block) { b.flags % 2 == 1 }

  /** The block is tagged with the family, or untagged for no family. */
  predicate TaggedFor(b: Block, family: Word32) {
    b.family == family && (b.flags / 0x2000 % 2 == 1 <==> family != 0)
  }

  /** The address after the last of the first `n` blocks that is meant for flash memory. */
  function EndOf(bs: seq<Block>, n: nat): Option<nat>
    requires n <= |bs|
  {
    if n == 0 then None else if Aside(bs[n - 1]) then EndOf(bs, n - 1) else Some(bs[n - 1].addr + bs[n - 1].len)
  }

  /** The address of the first block that is meant for flash memory, or `start`. */
  function StartOfFlash(bs: seq<Block>, n: nat, start: nat): nat
    requires n <= |bs|
  {
    if n == 0 then start
    else if EndOf(bs, n - 1) == None && !Aside(bs[n - 1]) then bs[n - 1].addr
    else StartOfFlash(bs, n - 1, start)
  }

  /** Block `k` may come where it does: at most 476 bytes, and after the block before it by a whole number of words, at
      most ten megabytes. */
  predicate InPlace(bs: seq<Block>, k: nat)
    requires k < |bs|
  {
    && bs[k].len <= 476
    && match EndOf(bs, k)
       case None => true
       case Some(end) => end <= bs[k].addr <= end + 10 * 1024 * 1024 && (bs[k].addr - end) % 4 == 0
  }

  predicate AllInPlace(bs: seq<Block>, n: nat)
    requires n <= |bs|
  {
    forall k :: 0 <= k < n && !Aside(bs[k]) ==> InPlace(bs, k)
  }

  /** The payloads of the blocks meant for flash memory, with zeros in the gaps; or the gaps alone. */
  function FlashImage(bs: seq<Block>, n: nat, taken: bool): seq<Byte>
    requires n <= |bs| && Encodable(bs) && AllInPlace(bs, n)
  {
    if n == 0 then []
    else if Aside(bs[n - 1]) then FlashImage(bs, n - 1, taken)
    else
      var b := bs[n - 1];
      assert InPlace(bs, n - 1);
      var gap: nat := match EndOf(bs, n - 1) case None => 0 case Some(end) => b.addr - end;
      FlashImage(bs, n - 1, taken) + Zeros(gap) + (if taken then b.body[..b.len] else [])
  }

  /** Decoding for `selected` takes the blocks of the family: 0 selects everything. */
  predicate Takes(selected: Word32, family: Word32) { selected == 0 || selected == family }

  /** The decoder after the first `n` blocks. */
  function FlashDecoder(bs: seq<Block>, selected: Word32, family: Word32, start: nat, n: nat): Decoder
    requires n <= |bs| && Encodable(bs) && AllInPlace(bs, n)
  {
    var some := EndOf(bs, n).Some?;
    Decoder(EndOf(bs, n), if some then Some(family) else None, if some && family != 0 then {family} else {},
            FlashImage(bs, n, Takes(selected, family)),
            if Takes(selected, family) then StartOfFlash(bs, n, start) else start)
  }

  lemma AcceptAside(selected: Word32, d: Decoder, last: bool, b: Block)
    requires |b.body| == BODY && Aside(b)
    ensures Accept(selected, d, last, View(b)) == Some(d)
  {
  }

  lemma AcceptLong(selected: Word32, d: Decoder, last: bool, b: Block)
    requires |b.body| == BODY && !Aside(b) && b.len > 476
    ensures Accept(selected, d, last, View(b)) == None
  {
  }

  /** What the decoder takes of a block of the family. */
  function Taken(selected: Word32, family: Word32, b: Block): seq<Byte>
    requires |b.body| == BODY && b.len <= 476
  {
    if Takes(selected, family) then b.body[..b.len] else []
  }

  lemma AcceptStart(selected: Word32, family: Word32, start: nat, last: bool, b: Block)
    requires |b.body| == BODY && !Aside(b) && TaggedFor(b, family) && b.len <= 476
    ensures Accept(selected, Decoder(None, None, {}, [], start), last, View(b))
         == Some(Decoder(Some(b.addr + b.len), Some(family), if family != 0 then {family} else {}, Taken(selected, family, b),
                         if Takes(selected, family) then b.addr else start))
  {
    assert View(b).body[..b.len] == b.body[..b.len];
    assert [] + Zeros(0) + b.body[..b.len] == b.body[..b.len];
    assert [] + Zeros(0) + [] == [];
    assert {} + {family} == {family} && |{family}| == 1;
  }

  lemma AcceptMore(selected: Word32, family: Word32, d: Decoder, last: bool, b: Block)
    requires |b.body| == BODY && !Aside(b) && TaggedFor(b, family) && b.len <= 476
    requires d.curr.Some? && d.currFamily == Some(family) && d.families == if family != 0 then {family} else {}
    ensures var gap := b.addr - d.curr.value;
            Accept(selected, d, last, View(b))
            == if 0 <= gap <= 10 * 1024 * 1024 && gap % 4 == 0
               then Some(d.(curr := Some(b.addr + b.len), out := d.out + Zeros(gap) + Taken(selected, family, b)))
               else None
  {
    assert View(b).body[..b.len] == b.body[..b.len];
    assert {family} + {family} == {family} && |{family}| == 1;
  }

  lemma {:induction false} FlashStep(bs: seq<Block>, selected: Word32, family: Word32, start: nat, n: nat, last: bool)
    requires n < |bs| && Encodable(bs) && AllInPlace(bs, n)
    requires !Aside(bs[n]) ==> TaggedFor(bs[n], family)
    ensures AllInPlace(bs, n + 1) <==> Aside(bs[n]) || InPlace(bs, n)
    ensures Accept(selected, FlashDecoder(bs, selected, family, start, n), last, View(bs[n]))
         == if AllInPlace(bs, n + 1) then Some(FlashDecoder(bs, selected, family, start, n + 1)) else None
  {
    var b := bs[n];
    var d := FlashDecoder(bs, selected, family, start, n);
    if Aside(b) {
      AcceptAside(selected, d, last, b);
    } else if b.len > 476 {
      AcceptLong(selected, d, last, b);
    } else if EndOf(bs, n) == None {
      NoneYet(bs, selected, family, start, n);
      AcceptStart(selected, family, start, last, b);
      assert [] + Zeros(0) + Taken(selected, family, b) == Taken(selected, family, b);
    } else {
      AcceptMore(selected, family, d, last, b);
    }
  }

  lemma {:induction false} NoneYet(bs: seq<Block>, selected: Word32, family: Word32, start: nat, n: nat)
    requires n <= |bs| && Encodable(bs) && AllInPlace(bs, n) && EndOf(bs, n) == None
    ensures FlashDecoder(bs, selected, family, start, n) == Decoder(None, None, {}, [], start)
  {
    if n > 0 {
      NoneYet(bs, selected, family, start, n - 1);
    }
  }

  lemma {:induction false} FlashFrom(bs: seq<Block>, selected: Word32, family: Word32, start: nat, n: nat)
    requires n <= |bs| && Encodable(bs) && forall k :: 0 <= k < |bs| && !Aside(bs[k]) ==> TaggedFor(bs[k], family)
    ensures DecodeFrom(selected, start, Views(bs), n)
         == if AllInPlace(bs, n) then Some(FlashDecoder(bs, selected, family, start, n)) else None
  {
    if n > 0 {
      FlashFrom(bs, selected, family, start, n - 1);
      if AllInPlace(bs, n - 1) {
        DecodeStep(selected, start, Views(bs), n, FlashDecoder(bs, selected, family, start, n - 1));
        FlashStep(bs, selected, family, start, n - 1, n == |bs|);
      }
    }
  }

  /** A file of one family decodes if and only if every block that is meant for flash memory is in place. Decoded for
      everything or for that family it gives exactly their payloads, each with the length its header gives, with the gaps
      zeroed, from the address of the first of them on; decoded for another family it gives the gaps alone and leaves
      the start address as it was. Blocks that are not meant for flash memory count for nothing, wherever they are. */
  lemma {:induction false} FlashDecodes(bs: seq<Block>, selected: Word32, family: Word32, start: nat)
    requires Encodable(bs) && forall k :: 0 <= k < |bs| && !Aside(bs[k]) ==> TaggedFor(bs[k], family)
    ensures FromUf2(selected, start, EncodeBlocks(bs, |bs|))
         == if !AllInPlace(bs, |bs|) then Failed
            else if selected == 0 || selected == family then
              Decoded(FlashImage(bs, |bs|, true), StartOfFlash(bs, |bs|, start))
            else Decoded(FlashImage(bs, |bs|, false), start)
  {
    ParseFile(bs, EncodeBlocks(bs, |bs|));
    FlashFrom(bs, selected, family, start, |bs|);
  }
}
