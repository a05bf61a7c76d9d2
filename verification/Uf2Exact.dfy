/** Exactly which UF2 files of one family, and which HEX records, can be decoded at all. */
module Uf2Exact {
  import opened Bytes
  import opened Optional
  import opened Uf2Model
  import opened Uf2Proofs

  /** Blocks as an encoder makes them, in any order. */
  ghost predicate Alike(bs: seq<Block>, family: Word32, device: Word32) {
    Encodable(bs) && forall k :: 0 <= k < |bs| ==> Uniform(bs[k], family, device)
  }

  /** The first `m` blocks follow each other. */
  ghost predicate FollowTo(bs: seq<Block>, m: nat)
    requires m <= |bs|
  {
    forall k :: 0 < k < m ==> Follows(bs, k)
  }

  lemma {:induction false} PrefixChain(bs: seq<Block>, family: Word32, device: Word32, m: nat)
    requires m <= |bs| && Alike(bs, family, device) && FollowTo(bs, m)
    ensures Chain(bs[..m], family, device)
  {
    forall k | 0 < k < m ensures Follows(bs[..m], k) {
      assert Follows(bs, k);
    }
  }

  lemma {:induction false} DecodePrefix(bs: seq<Block>, family: Word32, device: Word32, start: nat, m: nat, n: nat)
    requires n <= m <= |bs| && Alike(bs, family, device) && Chain(bs[..m], family, device)
    ensures DecodeFrom(family, start, Views(bs), n) == Some(ChainDecoder(bs[..m], family, start, n))
  {
    if n > 0 {
      DecodePrefix(bs, family, device, start, m, n - 1);
      DecodeStep(family, start, Views(bs), n, ChainDecoder(bs[..m], family, start, n - 1));
      assert Views(bs)[n - 1] == View(bs[..m][n - 1]);
      ChainAccepts(bs[..m], family, device, start, n - 1, n == |bs|);
    }
  }

  /** A block that does not follow the one before it raises an exception. */
  lemma AcceptNever(family: Word32, device: Word32, d: Decoder, last: bool, addr: nat, body: seq<Byte>)
    requires |body| == 480 && d.curr.Some? && d.currFamily == Some(family)
    requires d.curr.value > addr || addr - d.curr.value > MAX_PADDING || (addr - d.curr.value) % 4 != 0
    ensures Accept(family, d, last, Parsed(true, Flags(family, device), addr, 256, family, body)) == None
  {
    FlagsRead(family, device);
  }

  lemma {:induction false} StopsAt(bs: seq<Block>, family: Word32, device: Word32, start: nat, k: nat)
    requires 0 < k < |bs| && Alike(bs, family, device) && FollowTo(bs, k) && !Follows(bs, k)
    ensures DecodeFrom(family, start, Views(bs), k + 1) == None
  {
    PrefixChain(bs, family, device, k);
    DecodePrefix(bs, family, device, start, k, k);
    var d := ChainDecoder(bs[..k], family, start, k);
    DecodeStep(family, start, Views(bs), k + 1, d);
    assert Uniform(bs[k], family, device);
    AcceptNever(family, device, d, k + 1 == |bs|, bs[k].addr, bs[k].body + Le32(UF2_MAGIC_END));
  }

  lemma {:induction false} FirstBreak(bs: seq<Block>, m: nat) returns (k: nat)
    requires m <= |bs| && !FollowTo(bs, m)
    ensures 0 < k < m && FollowTo(bs, k) && !Follows(bs, k)
  {
    k := m - 1;
    if !FollowTo(bs, m - 1) {
      k := FirstBreak(bs, m - 1);
    }
  }

  lemma {:induction false} FailsAt(bs: seq<Block>, family: Word32, device: Word32, start: nat, k: nat)
    requires 0 < k < |bs| && Alike(bs, family, device) && FollowTo(bs, k) && !Follows(bs, k)
    ensures FromUf2(family, start, EncodeBlocks(bs, |bs|)) == Failed
  {
    ParseFile(bs, EncodeBlocks(bs, |bs|));
    StopsAt(bs, family, device, start, k);
    NoneAfter(family, start, Views(bs), k + 1, |bs|);
  }

  /** A file of like blocks decodes if and only if every block follows the one before it, at most 10 MiB further on. */
  lemma {:induction false} DecodesExactly(bs: seq<Block>, family: Word32, device: Word32, start: nat)
    requires Alike(bs, family, device)
    ensures FromUf2(family, start, EncodeBlocks(bs, |bs|)).Decoded? <==> FollowTo(bs, |bs|)
  {
    if FollowTo(bs, |bs|) {
      ChainDecodes(bs, family, device, start);
    } else {
      var k := FirstBreak(bs, |bs|);
      FailsAt(bs, family, device, start, k);
    }
  }

  // ---------------------------------------------------------------- HEX records

  ghost predicate WholePages(pages: seq<Page>) {
    forall k :: 0 <= k < |pages| ==> IsPage(pages[k])
  }

  lemma {:induction false} WritesWhole(ws: seq<Write>, n: nat)
    requires n <= |ws|
    ensures WholePages(PagesOf(ws, n))
  {
    if n > 0 {
      WritesWhole(ws, n - 1);
      PageArithmetic(ws[n - 1].addr, 0);
    }
  }

  /** Page `k` lies after the page before it, within the decoder's limit. */
  predicate PageFollows(pages: seq<Page>, k: nat)
    requires 0 < k < |pages|
  {
    pages[k - 1].addr < pages[k].addr <= pages[k - 1].addr + 256 + MAX_PADDING
  }

  lemma {:induction false} PageBlockAt(pages: seq<Page>, family: Word32, device: Word32, k: nat)
    requires GoodPages(pages) && k < |pages|
    ensures PageBlocks(pages, family, device)[k].addr == pages[k].addr
  {
    assert PageBlocks(pages, family, device)[k] == PageBlock(pages[k], k, |pages|, family, device);
  }

  lemma {:induction false} PageFollowsExactly(pages: seq<Page>, family: Word32, device: Word32, k: nat)
    requires GoodPages(pages) && WholePages(pages) && 0 < k < |pages|
    ensures Follows(PageBlocks(pages, family, device), k) <==> PageFollows(pages, k)
  {
    PageBlockAt(pages, family, device, k);
    PageBlockAt(pages, family, device, k - 1);
    assert IsPage(pages[k]) && IsPage(pages[k - 1]);
    AlignedGap(pages[k - 1].addr, pages[k].addr);
  }

  lemma {:induction false} PagesAlike(pages: seq<Page>, family: Word32, device: Word32)
    requires GoodPages(pages)
    ensures Alike(PageBlocks(pages, family, device), family, device)
  {
    var bs := PageBlocks(pages, family, device);
    forall k | 0 <= k < |bs| ensures Uniform(bs[k], family, device) {
      assert bs[k] == PageBlock(pages[k], k, |pages|, family, device);
    }
  }

  lemma {:induction false} PagesDecodeExactly(pages: seq<Page>, family: Word32, device: Word32, start: nat)
    requires GoodPages(pages) && WholePages(pages)
    ensures FromUf2(family, start, EncodeBlocks(PageBlocks(pages, family, device), |pages|)).Decoded?
            <==> forall k :: 0 < k < |pages| ==> PageFollows(pages, k)
  {
    var bs := PageBlocks(pages, family, device);
    PagesAlike(pages, family, device);
    DecodesExactly(bs, family, device, start);
    forall k | 0 < k < |pages| ensures Follows(bs, k) <==> PageFollows(pages, k) {
      PageFollowsExactly(pages, family, device, k);
    }
  }

  /** Write `i` goes to the page of the write before it, or to a later one within the decoder's limit. */
  predicate WriteFollows(ws: seq<Write>, i: nat)
    requires 0 < i < |ws|
  {
    PageOf(ws[i - 1].addr) <= PageOf(ws[i].addr) <= PageOf(ws[i - 1].addr) + 256 + MAX_PADDING
  }

  ghost predicate PagesFollowTo(pages: seq<Page>) {
    forall k :: 0 < k < |pages| ==> PageFollows(pages, k)
  }

  ghost predicate WritesFollowTo(ws: seq<Write>, n: nat)
    requires n <= |ws|
  {
    forall i :: 0 < i < n ==> WriteFollows(ws, i)
  }

  lemma {:induction false} PutFollows(pages: seq<Page>, addr: nat, b: Byte)
    requires WholePages(pages)
    ensures var r := PutByte(pages, addr, b);
            && r != [] && r[|r| - 1].addr == PageOf(addr)
            && (pages == [] ==> PagesFollowTo(r))
            && (pages != [] ==>
                  var last := pages[|pages| - 1].addr;
                  PagesFollowTo(r) <==> PagesFollowTo(pages) && last <= PageOf(addr) <= last + 256 + MAX_PADDING)
  {
    var r := PutByte(pages, addr, b);
    if pages != [] {
      assert IsPage(pages[|pages| - 1]);
      forall k | 0 < k < |pages| ensures PageFollows(r, k) <==> PageFollows(pages, k) {
      }
      if |r| > |pages| {
        assert PageFollows(r, |pages|) <==>
               pages[|pages| - 1].addr < PageOf(addr) <= pages[|pages| - 1].addr + 256 + MAX_PADDING;
      }
    }
  }

  /** The pages that writes start follow each other exactly if the writes do. */
  lemma {:induction false} FollowsExactly(ws: seq<Write>, n: nat)
    requires n <= |ws|
    ensures PagesFollowTo(PagesOf(ws, n)) <==> WritesFollowTo(ws, n)
    ensures n > 0 ==> PagesOf(ws, n) != [] && PagesOf(ws, n)[|PagesOf(ws, n)| - 1].addr == PageOf(ws[n - 1].addr)
  {
    if n > 0 {
      FollowsExactly(ws, n - 1);
      WritesWhole(ws, n - 1);
      PutFollows(PagesOf(ws, n - 1), ws[n - 1].addr, ws[n - 1].value);
      assert n > 1 ==> (WritesFollowTo(ws, n) <==> WritesFollowTo(ws, n - 1) && WriteFollows(ws, n - 1));
    }
  }

  /** The file made of HEX records, if it can be made, decodes if and only if consecutive bytes that the records store
      never go back to an earlier page and never skip more than 10 MiB. */
  lemma {:induction false} HexDecodesExactly(recs: seq<seq<Byte>>, family: Word32, device: Word32, start: nat)
    requires ReadRecords(recs, |recs|).Some? && GoodPages(ReadRecords(recs, |recs|).value.pages)
    ensures var pages := ReadRecords(recs, |recs|).value.pages;
            var ws := WritesOf(recs, |recs|);
            FromUf2(family, start, EncodeBlocks(PageBlocks(pages, family, device), |pages|)).Decoded?
            <==> forall i :: 0 < i < |ws| ==> WriteFollows(ws, i)
  {
    hide FromUf2;
    var ws := WritesOf(recs, |recs|);
    ReaderWrites(recs, |recs|);
    WritesWhole(ws, |ws|);
    FollowsExactly(ws, |ws|);
    PagesDecodeExactly(PagesOf(ws, |ws|), family, device, start);
  }

  /** A data record for one byte. */
  function OneByte(a: Word, b: Byte, sum: Byte): seq<Byte> {
    [1, WordByte(a, 0), WordByte(a, 1), 0, b, sum]
  }

  lemma OneByteReads(r: Reader, a: Word, b: Byte, sum: Byte)
    requires !r.done && r.upper == 0
    ensures ReadRecord(r, OneByte(a, b, sum))
         == Some(Reader(0, if r.start == None then Some(a) else r.start, PutByte(r.pages, a, b), false))
  {
    var rec := OneByte(a, b, sum);
    WordBytes(a);
    assert Pair(rec[1], rec[2]) == a;
    assert RecordData(rec) == [b];
    assert PutBytes(r.pages, a, [b], 0) == r.pages;
    assert PutBytes(r.pages, a, [b], 1) == PutByte(r.pages, a, b);
  }

  /** The pages of a byte on one page and then a byte on an earlier one. */
  lemma BackwardsReads(a1: Word, a2: Word, b1: Byte, b2: Byte, s1: Byte, s2: Byte, recs: seq<seq<Byte>>, n: nat)
    requires recs == [OneByte(a1, b1, s1), OneByte(a2, b2, s2)] && n == |recs| && PageOf(a2) < PageOf(a1)
    ensures ReadRecords(recs, n).Some?
    ensures ReadRecords(recs, n).value.pages
         == [Page(PageOf(a1), Zeros(256)[a1 % 256 := b1]), Page(PageOf(a2), Zeros(256)[a2 % 256 := b2])]
  {
    OneByteReads(READER, a1, b1, s1);
    assert ReadRecords(recs, n - 2) == Some(READER);
    var r1 := ReadRecord(READER, recs[0]).value;
    assert ReadRecords(recs, n - 1) == Some(r1);
    OneByteReads(r1, a2, b2, s2);
    assert r1.pages == [Page(PageOf(a1), Zeros(256)[a1 % 256 := b1])];
  }

  /** Two records that store a byte on one page and then a byte on an earlier one, at 0x0100 and then at 0x0000, say, are
      encoded into a file that cannot be decoded. */
  lemma BackwardsFails(a1: Word, a2: Word, b1: Byte, b2: Byte, s1: Byte, s2: Byte, family: Word32, device: Word32, start: nat)
    requires PageOf(a2) < PageOf(a1)
    ensures var recs := [OneByte(a1, b1, s1), OneByte(a2, b2, s2)];
            var reader := ReadRecords(recs, |recs|);
            reader.Some? && GoodPages(reader.value.pages)
            && var pages := reader.value.pages;
               FromUf2(family, start, EncodeBlocks(PageBlocks(pages, family, device), |pages|)) == Failed
  {
    hide FromUf2;
    var recs := [OneByte(a1, b1, s1), OneByte(a2, b2, s2)];
    BackwardsReads(a1, a2, b1, b2, s1, s2, recs, |recs|);
    var pages := ReadRecords(recs, |recs|).value.pages;
    PageArithmetic(a1, a2);
    PageArithmetic(a2, a1);
    assert IsPage(pages[0]) && IsPage(pages[1]) && GoodPages(pages);
    assert !PageFollows(pages, 1);
    PagesDecodeExactly(pages, family, device, start);
  }
}
