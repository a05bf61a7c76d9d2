/** The bytes of the UF2 files that are written, word by word, at their places in the file. */
module Uf2Bytes {
  import opened Bytes
  import opened Uf2Model
  import opened Uf2Proofs

  /** The four bytes at `pos` are the word `w`, least significant first. */
  predicate WordAt(buf: seq<Byte>, pos: nat, w: nat) {
    && pos + 4 <= |buf|
    && (buf[pos] as nat) + 256 * (buf[pos + 1] as nat) + 65536 * (buf[pos + 2] as nat) + 16777216 * (buf[pos + 3] as nat) == w
  }

  /** The eight words of the block header at `pos`, and the magic word at its end. */
  predicate BlockFrame(buf: seq<Byte>, pos: nat, flags: nat, addr: nat, no: nat, total: nat, family: nat) {
    && WordAt(buf, pos, 0x0A324655)
    && WordAt(buf, pos + 4, 0x9E5D5157)
    && WordAt(buf, pos + 8, flags)
    && WordAt(buf, pos + 12, addr)
    && WordAt(buf, pos + 16, 256)
    && WordAt(buf, pos + 20, no)
    && WordAt(buf, pos + 24, total)
    && WordAt(buf, pos + 28, family)
    && WordAt(buf, pos + 508, 0x0AB16F30)
  }

  /** From `pos` on, the 256 bytes of the contents from `from` on, with zeros after the end. */
  predicate PayloadAt(buf: seq<Byte>, pos: nat, content: seq<Byte>, from: nat) {
    && pos + 256 <= |buf|
    && forall j :: pos <= j < pos + 256 ==> buf[j] == ByteOf(content, from + j - pos)
  }

  function ByteOf(content: seq<Byte>, i: nat): Byte { if i < |content| then content[i] else 0 }

  predicate ZerosAt(buf: seq<Byte>, lo: nat, hi: nat) {
    hi <= |buf| && forall j :: lo <= j < hi ==> buf[j] == 0
  }

  // ---------------------------------------------------------------- one block

  lemma WordReads(buf: seq<Byte>, pos: nat, w: Word32)
    requires pos + 4 <= |buf| && buf[pos..pos + 4] == Le32(w)
    ensures WordAt(buf, pos, w)
  {
    Le32RoundTrip(w);
    var four := buf[pos..pos + 4];
    assert four[0] == buf[pos] && four[1] == buf[pos + 1] && four[2] == buf[pos + 2] && four[3] == buf[pos + 3];
  }

  lemma {:induction false} HeaderWordAt(bs: seq<Block>, buf: seq<Byte>, k: nat, j: nat)
    requires Encodable(bs) && k < |bs| && buf == EncodeBlocks(bs, |bs|) && j < 8
    ensures WordAt(buf, 512 * k + 4 * j, HeaderOf(bs[k])[j])
  {
    var block := EncodeBlock(bs[k]);
    BlockAt(bs, |bs|, k);
    PackAt(HeaderOf(bs[k]), j);
    assert block[4 * j..4 * j + 4] == Pack(HeaderOf(bs[k]))[4 * j..4 * j + 4];
    SliceOfBlock(buf, block, k, 4 * j, 4 * j + 4);
    WordReads(buf, 512 * k + 4 * j, HeaderOf(bs[k])[j]);
  }

  lemma SliceOfBlock(buf: seq<Byte>, block: seq<Byte>, k: nat, i: nat, j: nat)
    requires i <= j <= 512 == |block| && 512 * k + 512 <= |buf| && buf[512 * k..512 * k + 512] == block
    ensures buf[512 * k + i..512 * k + j] == block[i..j]
  {
    SliceOfSlice(buf, 512 * k, 512 * k + 512, i, j);
  }

  lemma SliceOfSlice(buf: seq<Byte>, lo: nat, hi: nat, i: nat, j: nat)
    requires i <= j && lo + j <= hi <= |buf|
    ensures buf[lo..hi][i..j] == buf[lo + i..lo + j]
  {
    var part := buf[lo..hi][i..j];
    forall x | 0 <= x < j - i ensures part[x] == buf[lo + i..lo + j][x] {
      assert part[x] == buf[lo..hi][i + x];
    }
  }

  lemma {:induction false} EndWordAt(bs: seq<Block>, buf: seq<Byte>, k: nat)
    requires Encodable(bs) && k < |bs| && buf == EncodeBlocks(bs, |bs|)
    ensures WordAt(buf, 512 * k + 508, 0x0AB16F30)
    ensures buf[512 * k + 32..512 * k + 508] == bs[k].body
  {
    var block := EncodeBlock(bs[k]);
    BlockAt(bs, |bs|, k);
    assert block[508..512] == Le32(UF2_MAGIC_END);
    assert block[32..508] == bs[k].body;
    SliceOfBlock(buf, block, k, 508, 512);
    SliceOfBlock(buf, block, k, 32, 508);
    WordReads(buf, 512 * k + 508, UF2_MAGIC_END);
  }

  lemma {:induction false} FrameAt(bs: seq<Block>, buf: seq<Byte>, k: nat)
    requires Encodable(bs) && k < |bs| && buf == EncodeBlocks(bs, |bs|) && bs[k].len == 256
    ensures BlockFrame(buf, 512 * k, bs[k].flags, bs[k].addr, bs[k].no, bs[k].total, bs[k].family)
    ensures buf[512 * k + 32..512 * k + 508] == bs[k].body
  {
    hide WordAt, EncodeBlocks;
    HeaderWordAt(bs, buf, k, 0);
    HeaderWordAt(bs, buf, k, 1);
    HeaderWordAt(bs, buf, k, 2);
    HeaderWordAt(bs, buf, k, 3);
    HeaderWordAt(bs, buf, k, 4);
    HeaderWordAt(bs, buf, k, 5);
    HeaderWordAt(bs, buf, k, 6);
    HeaderWordAt(bs, buf, k, 7);
    EndWordAt(bs, buf, k);
  }

  /** The payload and the rest of a block body. */
  lemma BodyReads(buf: seq<Byte>, pos: nat, body: seq<Byte>, content: seq<Byte>, from: nat)
    requires |body| == 476 && pos + 476 <= |buf| && buf[pos..pos + 476] == body
    requires forall i :: 0 <= i < 256 ==> body[i] == ByteOf(content, from + i)
    ensures PayloadAt(buf, pos, content, from)
    ensures buf[pos + 256..pos + 476] == body[256..]
  {
    forall j | pos <= j < pos + 256 ensures buf[j] == ByteOf(content, from + j - pos) {
      assert buf[j] == buf[pos..pos + 476][j - pos] == body[j - pos];
    }
    assert buf[pos + 256..pos + 476] == buf[pos..pos + 476][256..];
  }

  // ---------------------------------------------------------------- the file of a binary

  /** Every block address fits if and only if the last one does: the contents can be written exactly then. */
  lemma FitsExactly(content: seq<Byte>, start: nat)
    ensures Fits(content, start) <==>
            forall k :: 0 <= k < (|content| + 255) / 256 ==> start + 256 * k < 0x1_0000_0000
  {
    var n := (|content| + 255) / 256;
    if content != [] {
      assert n >= 1;
      assert (forall k :: 0 <= k < n ==> start + 256 * k < 0x1_0000_0000) ==> start + 256 * (n - 1) < 0x1_0000_0000;
    }
  }

  lemma {:induction false} FileBody(content: seq<Byte>, start: nat, family: Word32, k: nat)
    requires Fits(content, start) && k < (|content| + 255) / 256
    ensures var body := FileBlock(content, start, family, k).body;
            && (forall i :: 0 <= i < 256 ==> body[i] == ByteOf(content, 256 * k + i))
            && body[256..] == Zeros(220)
  {
    var chunk := Padded(content)[256 * k..256 * k + 256];
    forall i | 0 <= i < 256 ensures chunk[i] == ByteOf(content, 256 * k + i) {
      assert chunk[i] == Padded(content)[256 * k + i];
    }
  }

  /** Block `k` of the file of a binary: its address, its number among all blocks, 256 bytes of the contents, padded with
      zeros, and zeros up to the closing magic word. */
  lemma {:induction false} FileBlockBytes(content: seq<Byte>, start: nat, family: Word32, k: nat)
    requires Fits(content, start) && k < (|content| + 255) / 256
    ensures var f := FileBytes(content, start, family);
            var n := (|content| + 255) / 256;
            && |f| == 512 * n
            && BlockFrame(f, 512 * k, if family != 0 then 0x2000 else 0, start + 256 * k, k, n, family)
            && PayloadAt(f, 512 * k + 32, content, 256 * k)
            && ZerosAt(f, 512 * k + 288, 512 * k + 508)
  {
    hide EncodeBlocks, BlockFrame, PayloadAt;
    var bs := FileBlocks(content, start, family, BlockCount(|content|));
    var f := FileBytes(content, start, family);
    assert bs[k] == FileBlock(content, start, family, k);
    FrameAt(bs, f, k);
    FileBody(content, start, family, k);
    BodyReads(f, 512 * k + 32, bs[k].body, content, 256 * k);
    ZerosRead(f, 512 * k + 288, 512 * k + 508);
  }

  lemma ZerosRead(buf: seq<Byte>, lo: nat, hi: nat)
    requires lo <= hi <= |buf| && buf[lo..hi] == Zeros(hi - lo)
    ensures ZerosAt(buf, lo, hi)
  {
    forall j | lo <= j < hi ensures buf[j] == 0 {
      assert buf[j] == buf[lo..hi][j - lo];
    }
  }

  // ---------------------------------------------------------------- the file of pages

  /** What follows the payload of a page: with a device type the four bytes of its tag and the type itself, least
      significant byte first, and zeros; otherwise only zeros. */
  predicate ExtensionAt(buf: seq<Byte>, pos: nat, device: nat) {
    && pos + 220 <= |buf|
    && (if device == 0 then ZerosAt(buf, pos, pos + 8)
        else
          && buf[pos] == 0x08 && buf[pos + 1] == 0x29 && buf[pos + 2] == 0xA7 && buf[pos + 3] == 0xC8
          && WordAt(buf, pos + 4, device))
    && ZerosAt(buf, pos + 8, pos + 220)
  }

  lemma ExtensionReads(buf: seq<Byte>, pos: nat, device: Word32)
    requires pos + 220 <= |buf| && buf[pos..pos + 220] == Extension(device)
    ensures ExtensionAt(buf, pos, device)
  {
    var e := buf[pos..pos + 220];
    assert buf[pos + 8..pos + 220] == e[8..] == Zeros(212);
    ZerosRead(buf, pos + 8, pos + 220);
    assert buf[pos] == e[0] && buf[pos + 1] == e[1] && buf[pos + 2] == e[2] && buf[pos + 3] == e[3];
    assert buf[pos..pos + 8] == e[..8];
    if device != 0 {
      assert buf[pos + 4..pos + 8] == e[4..8] == Le32(device);
      WordReads(buf, pos + 4, device);
    } else {
      assert e[..8] == Zeros(8);
      ZerosRead(buf, pos, pos + 8);
    }
  }

  /** Block `k` of the file of a page list: the page's address and its 256 bytes, its number among all pages, the flags
      for the family and the device type, and the device-type extension. */
  lemma {:induction false} PageBlockBytes(pages: seq<Page>, family: Word32, device: Word32, k: nat)
    requires GoodPages(pages) && k < |pages|
    ensures var f := EncodeBlocks(PageBlocks(pages, family, device), |pages|);
            && |f| == 512 * |pages|
            && BlockFrame(f, 512 * k, (if family != 0 then 0x2000 else 0) + (if device != 0 then 0x8000 else 0),
                 pages[k].addr, k, |pages|, family)
            && PayloadAt(f, 512 * k + 32, pages[k].bytes, 0)
            && ExtensionAt(f, 512 * k + 288, device)
  {
    hide EncodeBlocks, BlockFrame, PayloadAt, ExtensionAt, Extension;
    var bs := PageBlocks(pages, family, device);
    var f := EncodeBlocks(bs, |pages|);
    assert bs[k] == PageBlock(pages[k], k, |pages|, family, device);
    FrameAt(bs, f, k);
    PageBody(f, 512 * k + 32, pages[k], bs[k].body, device);
  }

  lemma PageBody(buf: seq<Byte>, pos: nat, p: Page, body: seq<Byte>, device: Word32)
    requires |p.bytes| == 256 && body == p.bytes + Extension(device)
    requires pos + 476 <= |buf| && buf[pos..pos + 476] == body
    ensures PayloadAt(buf, pos, p.bytes, 0) && ExtensionAt(buf, pos + 256, device)
  {
    hide PayloadAt, ExtensionAt, Extension;
    BodyReads(buf, pos, body, p.bytes, 0);
    assert body[256..] == Extension(device);
    ExtensionReads(buf, pos + 256, device);
  }

  // ---------------------------------------------------------------- which addresses can be written

  lemma {:induction false} PagesWhole(ws: seq<Write>, n: nat)
    requires n <= |ws|
    ensures forall k :: 0 <= k < |PagesOf(ws, n)| ==> |PagesOf(ws, n)[k].bytes| == 256 && PagesOf(ws, n)[k].addr % 256 == 0
    ensures (forall k :: 0 <= k < |PagesOf(ws, n)| ==> PagesOf(ws, n)[k].addr < 0x1_0000_0000)
       <==> (forall i :: 0 <= i < n ==> ws[i].addr < 0x1_0000_0000)
  {
    if n > 0 {
      PagesWhole(ws, n - 1);
      PageFits(ws[n - 1].addr);
      var pages := PagesOf(ws, n - 1);
      var more := PagesOf(ws, n);
      assert more == PutByte(pages, ws[n - 1].addr, ws[n - 1].value);
      assert |pages| <= |more| && forall k :: 0 <= k < |pages| ==> more[k].addr == pages[k].addr;
      assert more[|more| - 1].addr == PageOf(ws[n - 1].addr);
    }
  }

  lemma PageFits(a: nat)
    ensures PageOf(a) % 256 == 0 && (PageOf(a) < 0x1_0000_0000 <==> a < 0x1_0000_0000)
  {
  }

  /** As long as the pages can be counted in 32 bits, they can be written if and only if every address that a record
      writes to fits 32 bits. */
  lemma {:induction false} PagesFitExactly(ws: seq<Write>)
    requires |PagesOf(ws, |ws|)| < 0x1_0000_0000
    ensures GoodPages(PagesOf(ws, |ws|)) <==> forall i :: 0 <= i < |ws| ==> ws[i].addr < 0x1_0000_0000
  {
    PagesWhole(ws, |ws|);
  }
}
