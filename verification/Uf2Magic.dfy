/** Blocks with a bad magic number: the decoder says that it skips them. */
module Uf2Magic {
  import opened Bytes
  import opened Optional
  import opened Uf2Model
  import opened Uf2Proofs

  function BlockBytes(buf: seq<Byte>, k: nat): (b: seq<Byte>)
    requires k < |buf| / 512
    ensures |b| == 512
  {
    buf[512 * k..512 * k + 512]
  }

  predicate BadMagic(buf: seq<Byte>, k: nat)
    requires k < |buf| / 512
  {
    !ParseBlock(BlockBytes(buf, k)).magic
  }

  ghost predicate AllMagic(buf: seq<Byte>) {
    forall k :: 0 <= k < |buf| / 512 ==> !BadMagic(buf, k)
  }

  /** The first `n` blocks of a file without those that have a bad magic number. */
  function WithoutBad(buf: seq<Byte>, n: nat): seq<Byte>
    requires n <= |buf| / 512
  {
    if n == 0 then []
    else if BadMagic(buf, n - 1) then WithoutBad(buf, n - 1)
    else WithoutBad(buf, n - 1) + BlockBytes(buf, n - 1)
  }

  /** Building the message adds a string and a number, which raises an exception: no file with such a block decodes. */
  lemma {:induction false} BadMagicFails(family: nat, start: nat, buf: seq<Byte>, k: nat)
    requires k < |buf| / 512 && BadMagic(buf, k)
    ensures FromUf2(family, start, buf) == Failed
  {
    var ps := ParseAll(buf);
    assert ps[k] == ParseBlock(BlockBytes(buf, k));
    assert DecodeFrom(family, start, ps, k + 1) == None;
    NoneAfter(family, start, ps, k + 1, |ps|);
  }

  lemma {:induction false} NothingLeftOut(buf: seq<Byte>, n: nat)
    requires n <= |buf| / 512 && AllMagic(buf)
    ensures WithoutBad(buf, n) == buf[..512 * n]
  {
    hide BadMagic;
    if n > 0 {
      NothingLeftOut(buf, n - 1);
      assert buf[..512 * n] == buf[..512 * (n - 1)] + BlockBytes(buf, n - 1);
    }
  }

  /** A last block that is not whole is not looked at. */
  lemma {:induction false} WholeBlocks(family: nat, start: nat, buf: seq<Byte>)
    ensures FromUf2(family, start, buf[..512 * (|buf| / 512)]) == FromUf2(family, start, buf)
  {
    var whole := buf[..512 * (|buf| / 512)];
    assert |whole| / 512 == |buf| / 512;
    forall i | 0 <= i < |ParseAll(buf)| ensures ParseAll(whole)[i] == ParseAll(buf)[i] {
      assert whole[512 * i..512 * i + 512] == buf[512 * i..512 * i + 512];
    }
    assert ParseAll(whole) == ParseAll(buf);
  }

  /** A file decodes as it would without its bad blocks if and only if it has none (or what is left cannot be decoded
      either). */
  lemma {:induction false} SkippedExactly(family: nat, start: nat, buf: seq<Byte>)
    ensures FromUf2(family, start, buf) == FromUf2(family, start, WithoutBad(buf, |buf| / 512))
       <==> AllMagic(buf) || FromUf2(family, start, WithoutBad(buf, |buf| / 512)) == Failed
  {
    if AllMagic(buf) {
      NothingLeftOut(buf, |buf| / 512);
      WholeBlocks(family, start, buf);
    } else {
      var k :| 0 <= k < |buf| / 512 && BadMagic(buf, k);
      BadMagicFails(family, start, buf, k);
    }
  }

  lemma ZerosAreBad(buf: seq<Byte>, k: nat)
    requires k < |buf| / 512 && BlockBytes(buf, k) == Zeros(512)
    ensures BadMagic(buf, k)
  {
    assert Zeros(512)[0..4] == [0, 0, 0, 0];
    assert HeaderWord(Zeros(512), 0) == 0;
  }

  /** One good block, which decodes, followed by 512 zeros, which make the file fail. */
  lemma BadMagicHappens(content: seq<Byte>, start: nat, start0: nat)
    requires content != [] && |content| <= 256 && start < 0x1_0000_0000
    ensures var good := FileBytes(content, start, 0);
            && FromUf2(0, start0, good) == Decoded(Padded(content), start)
            && FromUf2(0, start0, good + Zeros(512)) == Failed
  {
    assert BlockCount(|content|) == 1;
    FileRoundTrip(content, start, 0, start0);
    var good := FileBytes(content, start, 0);
    var buf := good + Zeros(512);
    assert |good| == 512 && BlockBytes(buf, 1) == Zeros(512);
    ZerosAreBad(buf, 1);
    BadMagicFails(0, start0, buf, 1);
  }
}
