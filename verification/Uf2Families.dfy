/** Files that hold blocks of two families, one after the other: what selecting a family extracts. */
module Uf2Families {
  import opened Bytes
  import opened Optional
  import opened Uf2Model
  import opened Uf2Proofs

  /** What a chain adds to the output: always its gaps, its payloads only when they are wanted. */
  function Added(bs: seq<Block>, n: nat, wanted: bool): seq<Byte>
    requires n <= |bs| && Encodable(bs) && forall k :: 0 < k < |bs| ==> Follows(bs, k)
  {
    if n == 0 then []
    else Added(bs, n - 1, wanted) + Zeros(Gap(bs, n - 1)) + if wanted then bs[n - 1].body[..256] else []
  }

  lemma {:induction false} AddedImage(bs: seq<Block>, n: nat)
    requires n <= |bs| && Encodable(bs) && forall k :: 0 < k < |bs| ==> Follows(bs, k)
    ensures Added(bs, n, true) == Image(bs, n)
  {
    if n > 0 {
      AddedImage(bs, n - 1);
    }
  }

  /** An unwanted chain adds a zero for every byte between its blocks. */
  lemma {:induction false} AddedBlank(bs: seq<Block>, n: nat)
    requires 0 < n <= |bs| && Encodable(bs) && forall k :: 0 < k < |bs| ==> Follows(bs, k)
    ensures Added(bs, n, false) == Zeros(|Added(bs, n, false)|)
    ensures |Added(bs, n, false)| == bs[n - 1].addr - bs[0].addr - 256 * (n - 1)
  {
    if n == 1 {
      assert Added(bs, 0, false) == [];
    } else {
      AddedBlank(bs, n - 1);
      assert Follows(bs, n - 1);
    }
  }

  function Wanted(selected: nat, family: nat): bool { selected == 0 || selected == family }

  /** The decoder `d` after `n` more blocks, all of another family than the one it was reading. */
  function Onto(d: Decoder, bs: seq<Block>, selected: nat, family: nat, n: nat): Decoder
    requires n <= |bs| && Encodable(bs) && forall k :: 0 < k < |bs| ==> Follows(bs, k)
  {
    if n == 0 then d
    else Decoder(Some(bs[n - 1].addr + 256), Some(family), d.families + {family},
                 d.out + Added(bs, n, Wanted(selected, family)),
                 if Wanted(selected, family) then bs[0].addr else d.start)
  }

  /** At the last block, a file of several families with none selected gives nothing. */
  function Finish(d: Decoder, last: bool, selected: nat): Decoder {
    if last && |d.families| > 1 && selected == 0 then d.(out := [], start := 0) else d
  }

  lemma AcceptSwitch(d: Decoder, selected: nat, family: Word32, device: Word32, last: bool, addr: nat, body: seq<Byte>)
    requires |body| == 480 && family != 0 && (d.curr.None? <==> d.currFamily.None?) && d.currFamily != Some(family)
    ensures Accept(selected, d, last, Parsed(true, Flags(family, device), addr, 256, family, body))
         == Some(Finish(Decoder(Some(addr + 256), Some(family), d.families + {family},
                                d.out + Zeros(0) + (if Wanted(selected, family) then body[..256] else []),
                                if Wanted(selected, family) then addr else d.start), last, selected))
  {
    FlagsRead(family, device);
  }

  lemma AcceptSame(d: Decoder, selected: nat, family: Word32, device: Word32, last: bool, addr: nat, body: seq<Byte>)
    requires |body| == 480 && family != 0 && d.curr.Some? && d.currFamily == Some(family) && family in d.families
    requires d.curr.value <= addr && addr - d.curr.value <= MAX_PADDING && (addr - d.curr.value) % 4 == 0
    ensures Accept(selected, d, last, Parsed(true, Flags(family, device), addr, 256, family, body))
         == Some(Finish(d.(curr := Some(addr + 256),
                           out := d.out + Zeros(addr - d.curr.value) + if Wanted(selected, family) then body[..256] else []),
                        last, selected))
  {
    FlagsRead(family, device);
    assert d.families + {family} == d.families;
  }

  lemma {:induction false} OntoStep(
    d: Decoder, bs: seq<Block>, selected: nat, family: Word32, device: Word32, n: nat, last: bool)
    requires Chain(bs, family, device) && family != 0 && n < |bs|
    requires (d.curr.None? <==> d.currFamily.None?) && d.currFamily != Some(family)
    ensures Accept(selected, Onto(d, bs, selected, family, n), last, View(bs[n]))
         == Some(Finish(Onto(d, bs, selected, family, n + 1), last, selected))
  {
    var b := bs[n];
    assert Uniform(b, family, device);
    var body := b.body + Le32(UF2_MAGIC_END);
    assert body[..256] == b.body[..256];
    var payload := if Wanted(selected, family) then b.body[..256] else [];
    assert Added(bs, n + 1, Wanted(selected, family))
        == Added(bs, n, Wanted(selected, family)) + Zeros(Gap(bs, n)) + payload;
    if n == 0 {
      AcceptSwitch(d, selected, family, device, last, b.addr, body);
      assert d.out + Zeros(0) + payload == d.out + ([] + Zeros(0) + payload);
    } else {
      assert Follows(bs, n);
      AcceptSame(Onto(d, bs, selected, family, n), selected, family, device, last, b.addr, body);
      var before := Added(bs, n, Wanted(selected, family));
      assert d.out + before + Zeros(Gap(bs, n)) + payload == d.out + (before + Zeros(Gap(bs, n)) + payload);
    }
  }

  /** Block `k` of the chain that stands at `m` in a file. */
  predicate StandsAt(ps: seq<Parsed>, m: nat, bs: seq<Block>, k: nat)
    requires k < |bs| && m + |bs| <= |ps|
  {
    |bs[k].body| == BODY && ps[m + k] == View(bs[k])
  }

  ghost predicate Stands(ps: seq<Parsed>, m: nat, bs: seq<Block>)
    requires m + |bs| <= |ps|
  {
    forall k :: 0 <= k < |bs| ==> StandsAt(ps, m, bs, k)
  }

  lemma {:induction false} OntoNext(
    ps: seq<Parsed>, m: nat, d: Decoder, bs: seq<Block>, selected: nat, family: Word32, device: Word32, start: nat, n: nat)
    requires Chain(bs, family, device) && family != 0 && n < |bs| && m + |bs| <= |ps|
    requires forall i :: 0 <= i < |ps| ==> |ps[i].body| == 480
    requires StandsAt(ps, m, bs, n)
    requires DecodeFrom(selected, start, ps, m + n) == Some(Onto(d, bs, selected, family, n))
    requires (d.curr.None? <==> d.currFamily.None?) && d.currFamily != Some(family)
    ensures DecodeFrom(selected, start, ps, m + n + 1)
         == Some(Finish(Onto(d, bs, selected, family, n + 1), m + n + 1 == |ps|, selected))
  {
    OntoStep(d, bs, selected, family, device, n, m + n + 1 == |ps|);
    DecodeStep(selected, start, ps, m + n + 1, Onto(d, bs, selected, family, n));
  }

  /** Decoding `n` blocks of a chain that stands at `m` in a file. */
  lemma {:induction false} DecodeOnto(
    ps: seq<Parsed>, m: nat, d: Decoder, bs: seq<Block>, selected: nat, family: Word32, device: Word32, start: nat, n: nat)
    requires Chain(bs, family, device) && family != 0 && n <= |bs| && m + |bs| <= |ps|
    requires forall i :: 0 <= i < |ps| ==> |ps[i].body| == 480
    requires Stands(ps, m, bs)
    requires DecodeFrom(selected, start, ps, m) == Some(d)
    requires (d.curr.None? <==> d.currFamily.None?) && d.currFamily != Some(family)
    ensures DecodeFrom(selected, start, ps, m + n)
         == Some(Finish(Onto(d, bs, selected, family, n), n > 0 && m + n == |ps|, selected))
  {
    hide DecodeFrom, Added, View;
    if n > 0 {
      DecodeOnto(ps, m, d, bs, selected, family, device, start, n - 1);
      assert StandsAt(ps, m, bs, n - 1);
      OntoNext(ps, m, d, bs, selected, family, device, start, n - 1);
    }
  }

  /** What decoding a chain of family `fa` followed by one of family `fb` gives. */
  function TwoImages(a: seq<Block>, b: seq<Block>, fa: nat, fb: nat, selected: nat, start: nat): Decoded
    requires a != [] && b != []
    requires Encodable(a) && forall k :: 0 < k < |a| ==> Follows(a, k)
    requires Encodable(b) && forall k :: 0 < k < |b| ==> Follows(b, k)
  {
    if selected == 0 then Decoded([], 0)
    else Decoded(Added(a, |a|, selected == fa) + Added(b, |b|, selected == fb),
                 if selected == fa then a[0].addr else if selected == fb then b[0].addr else start)
  }

  /** The last decoder of such a file. */
  lemma {:induction false} BothImages(
    d0: Decoder, d1: Decoder, d2: Decoder, a: seq<Block>, b: seq<Block>, fa: Word32, fb: Word32, selected: nat, start: nat)
    requires Encodable(a) && forall k :: 0 < k < |a| ==> Follows(a, k)
    requires Encodable(b) && forall k :: 0 < k < |b| ==> Follows(b, k)
    requires a != [] && b != [] && fa != 0 && fb != 0 && fa != fb
    requires d0 == Decoder(None, None, {}, [], start)
    requires d1 == Onto(d0, a, selected, fa, |a|)
    requires d2 == Finish(Onto(d1, b, selected, fb, |b|), true, selected)
    ensures Decoded(d2.out, d2.start) == TwoImages(a, b, fa, fb, selected, start)
  {
    assert d1.families + {fb} == {fa, fb} && |{fa, fb}| == 2;
    assert [] + Added(a, |a|, Wanted(selected, fa)) == Added(a, |a|, Wanted(selected, fa));
  }

  lemma {:induction false} DecodeBoth(
    ps: seq<Parsed>, a: seq<Block>, b: seq<Block>, fa: Word32, fb: Word32, da: Word32, db: Word32, selected: nat, start: nat)
    requires Chain(a, fa, da) && Chain(b, fb, db) && a != [] && b != [] && fa != 0 && fb != 0 && fa != fb
    requires |ps| == |a| + |b| && forall i :: 0 <= i < |ps| ==> |ps[i].body| == 480
    requires Stands(ps, 0, a) && Stands(ps, |a|, b)
    ensures DecodeFrom(selected, start, ps, |ps|).Some?
    ensures var d := DecodeFrom(selected, start, ps, |ps|).value;
            Decoded(d.out, d.start) == TwoImages(a, b, fa, fb, selected, start)
  {
    var d0 := Decoder(None, None, {}, [], start);
    DecodeOnto(ps, 0, d0, a, selected, fa, da, start, |a|);
    var d1 := Onto(d0, a, selected, fa, |a|);
    DecodeOnto(ps, |a|, d1, b, selected, fb, db, start, |b|);
    BothImages(d0, d1, DecodeFrom(selected, start, ps, |ps|).value, a, b, fa, fb, selected, start);
  }

  lemma {:induction false} TwoFamiliesDecode(
    a: seq<Block>, b: seq<Block>, fa: Word32, fb: Word32, da: Word32, db: Word32, selected: nat, start: nat)
    requires Chain(a, fa, da) && Chain(b, fb, db) && a != [] && b != [] && fa != 0 && fb != 0 && fa != fb
    ensures Encodable(a + b)
    ensures FromUf2(selected, start, EncodeBlocks(a + b, |a + b|)) == TwoImages(a, b, fa, fb, selected, start)
  {
    ParseFile(a + b, EncodeBlocks(a + b, |a + b|));
    var ps := Views(a + b);
    forall k | 0 <= k < |a| ensures StandsAt(ps, 0, a, k) {
      assert (a + b)[k] == a[k];
    }
    forall k | 0 <= k < |b| ensures StandsAt(ps, |a|, b, k) {
      assert (a + b)[|a| + k] == b[k];
    }
    DecodeBoth(ps, a, b, fa, fb, da, db, selected, start);
  }

  /** The blocks of a chain leave no gaps between them. */
  predicate Gapless(bs: seq<Block>)
    requires bs != []
  {
    bs[|bs| - 1].addr == bs[0].addr + 256 * (|bs| - 1)
  }

  lemma {:induction false} ImageAlone(a: seq<Block>, b: seq<Block>)
    requires a != [] && Encodable(a) && forall k :: 0 < k < |a| ==> Follows(a, k)
    requires b != [] && Encodable(b) && forall k :: 0 < k < |b| ==> Follows(b, k)
    ensures Added(a, |a|, true) + Added(b, |b|, false) == Image(a, |a|) <==> Gapless(b)
    ensures Added(b, |b|, false) + Added(a, |a|, true) == Image(a, |a|) <==> Gapless(b)
  {
    AddedImage(a, |a|);
    AddedBlank(b, |b|);
    var blank := Added(b, |b|, false);
    assert blank == [] ==> Image(a, |a|) + blank == Image(a, |a|) && blank + Image(a, |a|) == Image(a, |a|);
  }

  /** Selecting one of the two families extracts exactly its image if and only if the blocks of the other leave no
      gaps: the zeros for a gap are written whichever family the block belongs to. The start address is always that
      of the selected family, and with no family selected nothing comes out. */
  lemma {:induction false} FamilySelected(
    a: seq<Block>, b: seq<Block>, fa: Word32, fb: Word32, da: Word32, db: Word32, start: nat)
    requires Chain(a, fa, da) && Chain(b, fb, db) && a != [] && b != [] && fa != 0 && fb != 0 && fa != fb
    ensures Encodable(a + b)
    ensures var buf := EncodeBlocks(a + b, |a + b|);
            && FromUf2(fa, start, buf).Decoded? && FromUf2(fb, start, buf).Decoded?
            && FromUf2(fa, start, buf).start == a[0].addr && FromUf2(fb, start, buf).start == b[0].addr
            && (FromUf2(fa, start, buf).data == Image(a, |a|) <==> Gapless(b))
            && (FromUf2(fb, start, buf).data == Image(b, |b|) <==> Gapless(a))
            && FromUf2(0, start, buf) == Decoded([], 0)
  {
    TwoFamiliesDecode(a, b, fa, fb, da, db, fa, start);
    TwoFamiliesDecode(a, b, fa, fb, da, db, fb, start);
    TwoFamiliesDecode(a, b, fa, fb, da, db, 0, start);
    ImageAlone(a, b);
    ImageAlone(b, a);
  }

  function Loaded(family: Word32, addr: Word32, no: Word32, total: Word32): (b: Block)
    ensures Uniform(b, family, 0)
  {
    Block(Flags(family, 0), addr, 256, no, total, family, Zeros(BODY))
  }

  /** One block of family 1, then two of family 2 with a page between them: selecting family 1 gives 256 bytes too many. */
  lemma GapHappens(start: nat)
    ensures var a, b := [Loaded(1, 0, 0, 1)], [Loaded(2, 0, 0, 2), Loaded(2, 512, 1, 2)];
            && Encodable(a + b)
            && var d := FromUf2(1, start, EncodeBlocks(a + b, |a + b|));
               d.Decoded? && d.data == Zeros(512)
  {
    var a, b := [Loaded(1, 0, 0, 1)], [Loaded(2, 0, 0, 2), Loaded(2, 512, 1, 2)];
    assert Follows(b, 1);
    assert Chain(a, 1, 0) && Chain(b, 2, 0);
    TwoFamiliesDecode(a, b, 1, 2, 0, 0, 1, start);
    AddedBlank(b, 2);
    AddedImage(a, 1);
    assert Image(a, 0) == [];
    assert Image(a, 1) == [] + Zeros(0) + Zeros(BODY)[..256] == Zeros(256);
    assert Zeros(256) + Zeros(256) == Zeros(512);
  }
}
