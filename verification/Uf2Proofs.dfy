/** What a UF2 file decodes to: the zero-padded contents it was made from, or the memory image that its
    HEX records describe. */
module Uf2Proofs {
  import opened Bytes
  import opened Optional
  import opened Uf2Model

  // ---------------------------------------------------------------- reading a block back

  lemma Le32RoundTrip(w: Word32)
    ensures FromLe32(Le32(w)) == w
  {
    var q := w / 256;
    assert w == 256 * q + w % 256;
    var r := q / 256;
    assert q == 256 * r + q % 256;
    assert r == 256 * (r / 256) + r % 256;
    assert w / 0x1_0000 == r && w / 0x100_0000 == r / 256;
  }

  lemma {:induction false} PackAt(ws: seq<Word32>, k: nat)
    requires k < |ws|
    ensures Pack(ws)[4 * k..4 * k + 4] == Le32(ws[k])
  {
    if k > 0 {
      PackAt(ws[1..], k - 1);
      assert Pack(ws)[4 * k..4 * k + 4] == Pack(ws[1..])[4 * (k - 1)..4 * (k - 1) + 4];
    }
  }

  function HeaderOf(b: Block): (ws: seq<Word32>)
    ensures |ws| == 8
  {
    [UF2_MAGIC_START0, UF2_MAGIC_START1, b.flags, b.addr, b.len, b.no, b.total, b.family]
  }

  lemma HeaderReads(b: Block, k: nat)
    requires |b.body| == BODY && k < 8
    ensures HeaderWord(EncodeBlock(b), k) == HeaderOf(b)[k]
  {
    PackAt(HeaderOf(b), k);
    Le32RoundTrip(HeaderOf(b)[k]);
    assert EncodeBlock(b)[4 * k..4 * k + 4] == Pack(HeaderOf(b))[4 * k..4 * k + 4];
  }

  /** What the decoder sees of an encoded block. */
  function View(b: Block): (p: Parsed)
    requires |b.body| == BODY
    ensures |p.body| == 480
  {
    Parsed(true, b.flags, b.addr, b.len, b.family, b.body + Le32(UF2_MAGIC_END))
  }

  lemma ParseEncoded(b: Block)
    requires |b.body| == BODY
    ensures ParseBlock(EncodeBlock(b)) == View(b)
  {
    HeaderReads(b, 0);
    HeaderReads(b, 1);
    HeaderReads(b, 2);
    HeaderReads(b, 3);
    HeaderReads(b, 4);
    HeaderReads(b, 7);
    assert EncodeBlock(b)[32..] == b.body + Le32(UF2_MAGIC_END);
  }

  lemma {:induction false} BlockAt(bs: seq<Block>, n: nat, k: nat)
    requires Encodable(bs) && k < n <= |bs|
    ensures EncodeBlocks(bs, n)[512 * k..512 * k + 512] == EncodeBlock(bs[k])
  {
    if k < n - 1 {
      BlockAt(bs, n - 1, k);
      assert EncodeBlocks(bs, n)[512 * k..512 * k + 512] == EncodeBlocks(bs, n - 1)[512 * k..512 * k + 512];
    }
  }

  function Views(bs: seq<Block>): (ps: seq<Parsed>)
    requires Encodable(bs)
    ensures |ps| == |bs| && forall k :: 0 <= k < |bs| ==> ps[k] == View(bs[k]) && |ps[k].body| == 480
  {
    seq(|bs|, k requires 0 <= k < |bs| => View(bs[k]))
  }

  lemma {:induction false} ParseAt(bs: seq<Block>, buf: seq<Byte>, k: nat)
    requires Encodable(bs) && k < |bs| && buf == EncodeBlocks(bs, |bs|)
    ensures ParseBlock(buf[512 * k..512 * k + 512]) == View(bs[k])
  {
    var block := buf[512 * k..512 * k + 512];
    BlockAt(bs, |bs|, k);
    assert block == EncodeBlock(bs[k]);
    ParseEncoded(bs[k]);
  }

  lemma {:induction false} ParseFile(bs: seq<Block>, buf: seq<Byte>)
    requires Encodable(bs) && buf == EncodeBlocks(bs, |bs|)
    ensures ParseAll(buf) == Views(bs)
  {
    forall k | 0 <= k < |bs| ensures ParseAll(buf)[k] == Views(bs)[k] {
      ParseAt(bs, buf, k);
    }
  }

  // ---------------------------------------------------------------- files of ascending blocks

  /** Block `k` continues after its predecessor, with a gap that the decoder accepts. */
  predicate Follows(bs: seq<Block>, k: nat)
    requires 0 < k < |bs|
  {
    var gap := bs[k].addr - (bs[k - 1].addr + 256);
    0 <= gap <= MAX_PADDING && gap % 4 == 0
  }

  function Gap(bs: seq<Block>, k: nat): nat
    requires k < |bs| && (k > 0 ==> Follows(bs, k))
  {
    if k == 0 then 0 else bs[k].addr - (bs[k - 1].addr + 256)
  }

  predicate Uniform(b: Block, family: Word32, device: Word32) {
    |b.body| == BODY && b.len == 256 && b.family == family && b.flags == Flags(family, device)
  }

  /** Blocks of one family that ascend without large gaps. */
  ghost predicate Chain(bs: seq<Block>, family: Word32, device: Word32) {
    && Encodable(bs)
    && (forall k :: 0 <= k < |bs| ==> Uniform(bs[k], family, device))
    && (forall k :: 0 < k < |bs| ==> Follows(bs, k))
  }

  /** The payloads of the first `n` blocks, with zeros in the gaps. */
  function Image(bs: seq<Block>, n: nat): seq<Byte>
    requires n <= |bs| && Encodable(bs) && forall k :: 0 < k < |bs| ==> Follows(bs, k)
  {
    if n == 0 then []
    else Image(bs, n - 1) + Zeros(Gap(bs, n - 1)) + bs[n - 1].body[..256]
  }

  lemma FlagsRead(family: Word32, device: Word32)
    ensures !HasFlag(Flags(family, device), 1)
    ensures HasFlag(Flags(family, device), FLAG_FAMILY) <==> family != 0
  {
  }

  /** The decoder after the first `n` blocks of a chain. */
  function ChainDecoder(bs: seq<Block>, family: Word32, start: nat, n: nat): Decoder
    requires n <= |bs| && Encodable(bs) && forall k :: 0 < k < |bs| ==> Follows(bs, k)
  {
    if n == 0 then Decoder(None, None, {}, [], start)
    else Decoder(Some(bs[n - 1].addr + 256), Some(family), if family != 0 then {family} else {}, Image(bs, n), bs[0].addr)
  }

  /** What the decoder does with the first block of a file. */
  lemma AcceptFirst(family: Word32, device: Word32, start: nat, last: bool, addr: nat, body: seq<Byte>)
    requires |body| == 480
    ensures Accept(family, Decoder(None, None, {}, [], start), last, Parsed(true, Flags(family, device), addr, 256, family, body))
         == Some(Decoder(Some(addr + 256), Some(family), if family != 0 then {family} else {}, body[..256], addr))
  {
    FlagsRead(family, device);
    assert [] + Zeros(0) + body[..256] == body[..256];
    assert {} + {family} == {family} && |{family}| == 1;
  }

  /** What the decoder does with a later block of the same family. */
  lemma AcceptNext(family: Word32, device: Word32, d: Decoder, last: bool, addr: nat, body: seq<Byte>)
    requires |body| == 480 && d.curr.Some? && d.currFamily == Some(family)
    requires d.families == if family != 0 then {family} else {}
    requires d.curr.value <= addr && addr - d.curr.value <= MAX_PADDING && (addr - d.curr.value) % 4 == 0
    ensures Accept(family, d, last, Parsed(true, Flags(family, device), addr, 256, family, body))
         == Some(d.(curr := Some(addr + 256), out := d.out + Zeros(addr - d.curr.value) + body[..256]))
  {
    FlagsRead(family, device);
    assert {family} + {family} == {family} && |{family}| == 1;
  }

  lemma {:induction false} ChainAccepts(bs: seq<Block>, family: Word32, device: Word32, start: nat, n: nat, last: bool)
    requires Chain(bs, family, device) && n < |bs|
    ensures Accept(family, ChainDecoder(bs, family, start, n), last, View(bs[n]))
         == Some(ChainDecoder(bs, family, start, n + 1))
  {
    var b := bs[n];
    assert Uniform(b, family, device);
    var d := ChainDecoder(bs, family, start, n);
    var body := b.body + Le32(UF2_MAGIC_END);
    assert body[..256] == b.body[..256];
    if n == 0 {
      AcceptFirst(family, device, start, last, b.addr, body);
      assert Image(bs, 1) == [] + Zeros(0) + b.body[..256] == b.body[..256];
    } else {
      assert Follows(bs, n);
      AcceptNext(family, device, d, last, b.addr, body);
    }
  }

  lemma {:induction false} DecodeStep(family: nat, start: nat, ps: seq<Parsed>, n: nat, d: Decoder)
    requires 0 < n <= |ps| && forall i :: 0 <= i < |ps| ==> |ps[i].body| == 480
    requires DecodeFrom(family, start, ps, n - 1) == Some(d)
    ensures DecodeFrom(family, start, ps, n) == Accept(family, d, n == |ps|, ps[n - 1])
  {
  }

  lemma {:induction false} NoneAfter(family: nat, start: nat, ps: seq<Parsed>, m: nat, n: nat)
    requires m <= n <= |ps| && forall i :: 0 <= i < |ps| ==> |ps[i].body| == 480
    requires DecodeFrom(family, start, ps, m) == None
    ensures DecodeFrom(family, start, ps, n) == None
  {
    if m < n {
      NoneAfter(family, start, ps, m, n - 1);
    }
  }

  lemma {:induction false} DecodeChain(bs: seq<Block>, family: Word32, device: Word32, start: nat, n: nat)
    requires Chain(bs, family, device) && n <= |bs|
    ensures DecodeFrom(family, start, Views(bs), n) == Some(ChainDecoder(bs, family, start, n))
  {
    if n > 0 {
      DecodeChain(bs, family, device, start, n - 1);
      DecodeStep(family, start, Views(bs), n, ChainDecoder(bs, family, start, n - 1));
      ChainAccepts(bs, family, device, start, n - 1, n == |bs|);
    }
  }

  /** Decoding a chain of blocks gives the payloads with the gaps zeroed, and the address of the first. */
  lemma {:induction false} ChainDecodes(bs: seq<Block>, family: Word32, device: Word32, start: nat)
    requires Chain(bs, family, device)
    ensures FromUf2(family, start, EncodeBlocks(bs, |bs|))
         == Decoded(Image(bs, |bs|), if bs == [] then start else bs[0].addr)
  {
    ParseFile(bs, EncodeBlocks(bs, |bs|));
    DecodeChain(bs, family, device, start, |bs|);
  }

  // ---------------------------------------------------------------- binary to UF2 and back

  lemma {:induction false} FileIsChain(content: seq<Byte>, start: nat, family: Word32)
    requires Fits(content, start)
    ensures Chain(FileBlocks(content, start, family, BlockCount(|content|)), family, 0)
  {
    var bs := FileBlocks(content, start, family, BlockCount(|content|));
    forall k | 0 < k < |bs| ensures Follows(bs, k) {
      assert bs[k] == FileBlock(content, start, family, k) && bs[k - 1] == FileBlock(content, start, family, k - 1);
    }
  }

  lemma {:induction false} FileImage(content: seq<Byte>, start: nat, family: Word32, n: nat)
    requires Fits(content, start) && n <= BlockCount(|content|)
    requires Chain(FileBlocks(content, start, family, BlockCount(|content|)), family, 0)
    ensures Image(FileBlocks(content, start, family, BlockCount(|content|)), n) == Padded(content)[..256 * n]
  {
    var bs := FileBlocks(content, start, family, BlockCount(|content|));
    if n > 0 {
      FileImage(content, start, family, n - 1);
      assert bs[n - 1] == FileBlock(content, start, family, n - 1);
      assert bs[n - 1].body[..256] == Padded(content)[256 * (n - 1)..256 * n];
      if n > 1 {
        assert bs[n - 2] == FileBlock(content, start, family, n - 2);
      }
    }
  }

  /** Any contents whose block addresses fit 32 bits come back from UF2 padded with zeros to whole blocks, at the
      address they were written for. */
  lemma {:induction false} FileRoundTrip(content: seq<Byte>, start: nat, family: Word32, start0: nat)
    requires Fits(content, start)
    ensures FromUf2(family, start0, FileBytes(content, start, family))
            == Decoded(Padded(content), if content == [] then start0 else start)
  {
    var n := BlockCount(|content|);
    var bs := FileBlocks(content, start, family, n);
    FileIsChain(content, start, family);
    ChainDecodes(bs, family, 0, start0);
    FileImage(content, start, family, n);
    assert Padded(content)[..256 * n] == Padded(content);
    if content != [] {
      assert bs[0] == FileBlock(content, start, family, 0);
    }
  }

  // ---------------------------------------------------------------- Intel HEX

  /** One byte stored by a record. */
  datatype Write = Write(addr: nat, value: Byte)

  /** What memory holds after the first `n` writes: the last write to an address wins, the rest is zero. */
  function Memory(ws: seq<Write>, n: nat, a: nat): Byte
    requires n <= |ws|
  {
    if n == 0 then 0 else if ws[n - 1].addr == a then ws[n - 1].value else Memory(ws, n - 1, a)
  }

  function PagesOf(ws: seq<Write>, n: nat): seq<Page>
    requires n <= |ws|
  {
    if n == 0 then [] else PutByte(PagesOf(ws, n - 1), ws[n - 1].addr, ws[n - 1].value)
  }

  /** The record's type, or -1 for a record too short to have one. */
  function TypeOf(rec: seq<Byte>): int {
    if |rec| >= 4 then rec[3] else -1
  }

  /** There is an end record among the first `n`. */
  predicate Ended(recs: seq<seq<Byte>>, n: nat)
    requires n <= |recs|
  {
    n > 0 && (Ended(recs, n - 1) || TypeOf(recs[n - 1]) == 1)
  }

  /** A field that is needed is missing in one of the first `n` records, before any end record. */
  predicate Lacking(recs: seq<seq<Byte>>, n: nat)
    requires n <= |recs|
  {
    n > 0 && (Lacking(recs, n - 1) || (!Ended(recs, n - 1) && Lacks(recs[n - 1])))
  }

  predicate Lacks(rec: seq<Byte>) {
    TypeOf(rec) == -1 || (TypeOf(rec) in {2, 4} && |rec| < 6)
  }

  /** The base address after the first `n` records: that of the latest record of type 4, which gives the upper 16 bits,
      or of type 2, which gives a segment of 16 bytes; 0 at first. */
  function Base(recs: seq<seq<Byte>>, n: nat): nat
    requires n <= |recs|
  {
    if n == 0 then 0
    else
      var rec := recs[n - 1];
      if Ended(recs, n - 1) || |rec| < 6 then Base(recs, n - 1)
      else if TypeOf(rec) == 4 then (256 * (rec[4] as nat) + rec[5] as nat) * 65536
      else if TypeOf(rec) == 2 then (256 * (rec[4] as nat) + rec[5] as nat) * 16
      else Base(recs, n - 1)
  }

  /** The address that record `n` gives for its data. */
  function AddressOf(recs: seq<seq<Byte>>, n: nat): nat
    requires n < |recs| && |recs[n]| >= 4
  {
    Base(recs, n) + 256 * (recs[n][1] as nat) + recs[n][2] as nat
  }

  /** The writes of one data record: the bytes between the type and the checksum, to ascending addresses. */
  function DataWrites(addr: nat, rec: seq<Byte>): (ws: seq<Write>) {
    seq(if |rec| < 5 then 0 else |rec| - 5, i requires 0 <= i && i + 5 < |rec| => Write(addr + i, rec[i + 4]))
  }

  /** The writes that the first `n` records ask for, in order. */
  function WritesOf(recs: seq<seq<Byte>>, n: nat): seq<Write>
    requires n <= |recs|
  {
    if n == 0 then []
    else if Ended(recs, n - 1) || TypeOf(recs[n - 1]) != 0 then WritesOf(recs, n - 1)
    else WritesOf(recs, n - 1) + DataWrites(AddressOf(recs, n - 1), recs[n - 1])
  }

  /** The start address that the first `n` records give: that of the first data record. */
  function StartOf(recs: seq<seq<Byte>>, n: nat): Option<nat>
    requires n <= |recs|
  {
    if n == 0 then None
    else if StartOf(recs, n - 1).Some? then StartOf(recs, n - 1)
    else if Ended(recs, n - 1) || Lacking(recs, n - 1) || TypeOf(recs[n - 1]) != 0 then None
    else Some(AddressOf(recs, n - 1))
  }

  /** The writes of a record's data at `addr`. */
  function RecordWrites(addr: nat, data: seq<Byte>, n: nat): (ws: seq<Write>)
    requires n <= |data|
    ensures |ws| == n
  {
    seq(n, i requires 0 <= i < n => Write(addr + i, data[i]))
  }

  lemma RecordDataWrites(addr: nat, rec: seq<Byte>)
    ensures RecordWrites(addr, RecordData(rec), |RecordData(rec)|) == DataWrites(addr, rec)
  {
  }

  lemma {:induction false} PagesPrefix(us: seq<Write>, vs: seq<Write>, n: nat)
    requires n <= |us| && n <= |vs| && us[..n] == vs[..n]
    ensures PagesOf(us, n) == PagesOf(vs, n)
  {
    if n > 0 {
      assert us[n - 1] == us[..n][n - 1] == vs[n - 1];
      assert us[..n - 1] == us[..n][..n - 1] == vs[..n - 1];
      PagesPrefix(us, vs, n - 1);
    }
  }

  lemma {:induction false} PagesSnoc(ws: seq<Write>, w: Write)
    ensures PagesOf(ws + [w], |ws| + 1) == PutByte(PagesOf(ws, |ws|), w.addr, w.value)
  {
    assert (ws + [w])[..|ws|] == ws[..|ws|];
    PagesPrefix(ws + [w], ws, |ws|);
  }

  lemma RecordWritesSnoc(addr: nat, data: seq<Byte>, n: nat)
    requires 0 < n <= |data|
    ensures RecordWrites(addr, data, n) == RecordWrites(addr, data, n - 1) + [Write(addr + n - 1, data[n - 1])]
  {
  }

  lemma {:induction false} PutBytesWrites(ws: seq<Write>, addr: nat, data: seq<Byte>, n: nat)
    requires n <= |data|
    ensures var all := ws + RecordWrites(addr, data, n);
            PutBytes(PagesOf(ws, |ws|), addr, data, n) == PagesOf(all, |all|)
  {
    hide PutByte, PagesOf;
    if n == 0 {
      assert ws + RecordWrites(addr, data, 0) == ws;
    } else {
      var before := ws + RecordWrites(addr, data, n - 1);
      var w := Write(addr + n - 1, data[n - 1]);
      PutBytesWrites(ws, addr, data, n - 1);
      RecordWritesSnoc(addr, data, n);
      assert ws + RecordWrites(addr, data, n) == before + [w];
      PagesSnoc(before, w);
    }
  }

  /** The reader after the first `n` records, as the records say. */
  function Read(recs: seq<seq<Byte>>, n: nat): Reader
    requires n <= |recs|
  {
    Reader(Base(recs, n), StartOf(recs, n), PagesOf(WritesOf(recs, n), |WritesOf(recs, n)|), Ended(recs, n))
  }

  lemma {:induction false} RecordReads(recs: seq<seq<Byte>>, n: nat)
    requires 0 < n <= |recs| && !Lacking(recs, n - 1)
    ensures ReadRecord(Read(recs, n - 1), recs[n - 1]) == if Lacking(recs, n) then None else Some(Read(recs, n))
  {
    hide PagesOf, PutBytes, RecordData, DataWrites;
    var rec := recs[n - 1];
    if !Ended(recs, n - 1) && TypeOf(rec) == 0 {
      var addr := AddressOf(recs, n - 1);
      PutBytesWrites(WritesOf(recs, n - 1), addr, RecordData(rec), |RecordData(rec)|);
      RecordDataWrites(addr, rec);
    }
  }

  /** The reader fails exactly on a missing field before the end record; otherwise it builds the pages of exactly the
      writes that the records ask for, and finds the base address, the start address and the end that they give. */
  lemma {:induction false} ReaderWrites(recs: seq<seq<Byte>>, n: nat)
    requires n <= |recs|
    ensures ReadRecords(recs, n) == if Lacking(recs, n) then None else Some(Read(recs, n))
  {
    hide PagesOf, ReadRecord;
    if n > 0 {
      ReaderWrites(recs, n - 1);
      if !Lacking(recs, n - 1) {
        RecordReads(recs, n);
      }
    } else {
      NoPages();
    }
  }

  /** The start address that is left behind, also when a missing field stops the reader, is that of the first data record
      before it. */
  lemma {:induction false} ReaderStart(recs: seq<seq<Byte>>, n: nat)
    requires n <= |recs|
    ensures StartRead(recs, n) == StartOf(recs, n)
  {
    hide PagesOf, ReadRecord, ReadRecords;
    ReaderWrites(recs, n);
    if Lacking(recs, n) {
      ReaderStart(recs, n - 1);
    }
  }

  lemma NoPages()
    ensures PagesOf([], 0) == []
  {
  }

  /** The writes visit pages in ascending order. */
  ghost predicate Grouped(ws: seq<Write>) {
    forall i, j :: 0 <= i < j < |ws| ==> PageOf(ws[i].addr) <= PageOf(ws[j].addr)
  }

  predicate IsPage(p: Page) {
    |p.bytes| == 256 && p.addr % 256 == 0
  }

  /** Whole pages in strictly ascending order. */
  ghost predicate Ascending(pages: seq<Page>) {
    && (forall k :: 0 <= k < |pages| ==> IsPage(pages[k]))
    && forall k, l :: 0 <= k < l < |pages| ==> pages[k].addr < pages[l].addr
  }

  /** What the first `n` pages hold at an address, zero where there is no page. */
  function Lookup(pages: seq<Page>, n: nat, a: nat): Byte
    requires n <= |pages|
  {
    if n == 0 then 0
    else if pages[n - 1].addr == PageOf(a) && |pages[n - 1].bytes| == 256 then pages[n - 1].bytes[a % 256]
    else Lookup(pages, n - 1, a)
  }

  lemma {:induction false} LookupBeyond(pages: seq<Page>, n: nat, a: nat)
    requires n <= |pages| && forall k :: 0 <= k < n ==> pages[k].addr != PageOf(a)
    ensures Lookup(pages, n, a) == 0
  {
    if n > 0 {
      LookupBeyond(pages, n - 1, a);
    }
  }

  lemma {:induction false} LookupPrefix(p: seq<Page>, q: seq<Page>, n: nat, a: nat)
    requires n <= |p| && n <= |q| && forall k :: 0 <= k < n ==> p[k] == q[k]
    ensures Lookup(p, n, a) == Lookup(q, n, a)
  {
    if n > 0 {
      LookupPrefix(p, q, n - 1, a);
    }
  }

  lemma PageArithmetic(a: nat, b: nat)
    ensures PageOf(a) % 256 == 0 && PageOf(a) + a % 256 == a
    ensures PageOf(a) == PageOf(b) && a % 256 == b % 256 ==> a == b
  {
  }

  /** Storing a byte on the last page or a later one changes that byte and no other. */
  lemma {:induction false} PutLookup(pages: seq<Page>, addr: nat, b: Byte, a: nat)
    requires Ascending(pages)
    requires pages != [] ==> pages[|pages| - 1].addr <= PageOf(addr)
    ensures var r := PutByte(pages, addr, b);
            && Ascending(r) && r != [] && r[|r| - 1].addr == PageOf(addr)
            && Lookup(r, |r|, a) == if a == addr then b else Lookup(pages, |pages|, a)
  {
    var n := |pages|;
    var r := PutByte(pages, addr, b);
    PageArithmetic(addr, a);
    if n == 0 || pages[n - 1].addr != PageOf(addr) {
      LookupPrefix(pages, r, n, a);
      if PageOf(a) == PageOf(addr) {
        LookupBeyond(pages, n, a);
      }
    } else {
      assert IsPage(pages[n - 1]);
      LookupPrefix(pages, r, n - 1, a);
    }
  }

  /** Pages built from grouped writes ascend and hold what memory holds. */
  lemma {:induction false} PagesHold(ws: seq<Write>, n: nat, a: nat)
    requires Grouped(ws) && n <= |ws|
    ensures var pages := PagesOf(ws, n);
            && Ascending(pages)
            && (n > 0 ==> pages != [] && pages[|pages| - 1].addr == PageOf(ws[n - 1].addr))
            && Lookup(pages, |pages|, a) == Memory(ws, n, a)
  {
    if n > 0 {
      PagesHold(ws, n - 1, a);
      PutLookup(PagesOf(ws, n - 1), ws[n - 1].addr, ws[n - 1].value, a);
    }
  }

  /** Write `i` is near enough to the one before it for the decoder's limit on gaps. */
  predicate NearBefore(ws: seq<Write>, i: nat)
    requires 0 < i < |ws|
  {
    PageOf(ws[i].addr) <= PageOf(ws[i - 1].addr) + 256 + MAX_PADDING
  }

  /** Consecutive writes are near enough to each other, and fit 32 bits. */
  ghost predicate Near(ws: seq<Write>) {
    && (forall i :: 0 <= i < |ws| ==> ws[i].addr < 0x1_0000_0000)
    && forall i :: 0 < i < |ws| ==> NearBefore(ws, i)
  }

  predicate NearPage(pages: seq<Page>, k: nat)
    requires 0 < k < |pages|
  {
    pages[k].addr <= pages[k - 1].addr + 256 + MAX_PADDING
  }

  ghost predicate NearPages(pages: seq<Page>) {
    && (forall k :: 0 <= k < |pages| ==> pages[k].addr < 0x1_0000_0000)
    && forall k :: 0 < k < |pages| ==> NearPage(pages, k)
  }

  lemma {:induction false} PutNear(pages: seq<Page>, addr: nat, b: Byte)
    requires NearPages(pages) && addr < 0x1_0000_0000
    requires pages != [] ==> PageOf(addr) <= pages[|pages| - 1].addr + 256 + MAX_PADDING
    ensures NearPages(PutByte(pages, addr, b))
    ensures pages != [] ==> PutByte(pages, addr, b)[0].addr == pages[0].addr
    ensures pages == [] ==> PutByte(pages, addr, b)[0].addr == PageOf(addr)
  {
    PageArithmetic(addr, addr);
    var r := PutByte(pages, addr, b);
    forall k | 0 < k < |r| ensures NearPage(r, k) {
      assert k < |pages| ==> NearPage(pages, k);
    }
  }

  lemma {:induction false} PagesNear(ws: seq<Write>, n: nat)
    requires Grouped(ws) && Near(ws) && n <= |ws|
    ensures NearPages(PagesOf(ws, n))
    ensures n > 0 ==> PagesOf(ws, n) != [] && PagesOf(ws, n)[0].addr == PageOf(ws[0].addr)
  {
    if n > 0 {
      PagesNear(ws, n - 1);
      PagesHold(ws, n - 1, 0);
      assert n > 1 ==> NearBefore(ws, n - 1);
      PutNear(PagesOf(ws, n - 1), ws[n - 1].addr, ws[n - 1].value);
    }
  }

  lemma {:induction false} PageBelow(pages: seq<Page>, k: nat)
    requires Ascending(pages) && k < |pages|
    ensures pages[k].addr >= 256 * k
  {
    assert IsPage(pages[k]);
    if k > 0 {
      PageBelow(pages, k - 1);
      assert IsPage(pages[k - 1]);
    }
  }

  /** Pages from grouped, near writes can all be encoded. */
  lemma {:induction false} PagesGood(pages: seq<Page>)
    requires Ascending(pages) && NearPages(pages)
    ensures GoodPages(pages)
  {
    if pages != [] {
      PageBelow(pages, |pages| - 1);
    }
    forall k | 0 <= k < |pages| ensures |pages[k].bytes| == 256 && pages[k].addr < 0x1_0000_0000 {
      assert IsPage(pages[k]);
    }
  }

  lemma AlignedGap(a: nat, b: nat)
    requires a % 256 == 0 && b % 256 == 0
    ensures a < b <==> b - a - 256 >= 0
    ensures (b - a - 256) % 4 == 0
  {
    var p, q := a / 256, b / 256;
    assert a == 256 * p && b == 256 * q;
    assert b - a - 256 == 4 * (64 * (q - p - 1));
  }

  lemma {:induction false} PagesFollow(pages: seq<Page>, bs: seq<Block>, k: nat)
    requires Ascending(pages) && NearPages(pages) && 0 < k < |pages| == |bs|
    requires bs[k].addr == pages[k].addr && bs[k - 1].addr == pages[k - 1].addr
    ensures Follows(bs, k)
  {
    assert IsPage(pages[k - 1]) && IsPage(pages[k]) && NearPage(pages, k);
    AlignedGap(pages[k - 1].addr, pages[k].addr);
  }

  lemma {:induction false} PagesChain(pages: seq<Page>, family: Word32, device: Word32)
    requires Ascending(pages) && NearPages(pages) && GoodPages(pages)
    ensures Chain(PageBlocks(pages, family, device), family, device)
  {
    var bs := PageBlocks(pages, family, device);
    forall k | 0 <= k < |bs| ensures bs[k].addr == pages[k].addr && Uniform(bs[k], family, device) {
      assert bs[k] == PageBlock(pages[k], k, |pages|, family, device);
    }
    forall k | 0 < k < |bs| ensures Follows(bs, k) {
      PagesFollow(pages, bs, k);
    }
  }

  lemma {:induction false} ImageStep(bs: seq<Block>, n: nat, bytes: seq<Byte>)
    requires 0 < n <= |bs| && Encodable(bs) && forall k :: 0 < k < |bs| ==> Follows(bs, k)
    requires bs[n - 1].body[..256] == bytes
    ensures Image(bs, n) == Image(bs, n - 1) + Zeros(Gap(bs, n - 1)) + bytes
  {
  }

  /** An address before the last page is looked up in the pages before it. */
  lemma {:induction false} LookupEarlier(pages: seq<Page>, n: nat, a: nat)
    requires Ascending(pages) && 1 < n <= |pages| && a < pages[n - 1].addr
    ensures Lookup(pages, n, a) == Lookup(pages, n - 1, a)
    ensures a >= pages[n - 2].addr + 256 ==> Lookup(pages, n, a) == 0
  {
    PageArithmetic(a, a);
    assert PageOf(a) != pages[n - 1].addr;
    if a >= pages[n - 2].addr + 256 {
      forall k | 0 <= k < n - 1 ensures pages[k].addr != PageOf(a) {
        assert k < n - 2 ==> pages[k].addr < pages[n - 2].addr;
      }
      LookupBeyond(pages, n - 1, a);
    }
  }

  /** An address on the last page is looked up there. */
  lemma {:induction false} LookupHere(pages: seq<Page>, n: nat, a: nat)
    requires Ascending(pages) && 0 < n <= |pages| && pages[n - 1].addr <= a < pages[n - 1].addr + 256
    ensures Lookup(pages, n, a) == pages[n - 1].bytes[a - pages[n - 1].addr]
  {
    var q := pages[n - 1].addr / 256;
    assert IsPage(pages[n - 1]) && pages[n - 1].addr == 256 * q;
    assert a / 256 == q && a % 256 == a - 256 * q;
  }

  /** Image byte `i` of the first `n` pages. */
  lemma {:induction false} PageImage(pages: seq<Page>, bs: seq<Block>, n: nat, i: nat)
    requires Ascending(pages) && 0 < n <= |pages| == |bs| && Encodable(bs)
    requires forall k :: 0 < k < |bs| ==> Follows(bs, k)
    requires forall k :: 0 <= k < |bs| ==> bs[k].addr == pages[k].addr && bs[k].body[..256] == pages[k].bytes
    ensures |Image(bs, n)| == pages[n - 1].addr + 256 - pages[0].addr
    ensures i < |Image(bs, n)| ==> Image(bs, n)[i] == Lookup(pages, n, pages[0].addr + i)
  {
    var a := pages[0].addr + i;
    assert IsPage(pages[n - 1]);
    ImageStep(bs, n, pages[n - 1].bytes);
    if n > 1 {
      PageImage(pages, bs, n - 1, i);
      assert Follows(bs, n - 1);
      if a < pages[n - 1].addr {
        LookupEarlier(pages, n, a);
      }
    }
    if pages[n - 1].addr <= a < pages[n - 1].addr + 256 {
      LookupHere(pages, n, a);
    }
  }

  /** Block `k` carries the bytes of page `k` to its address. */
  ghost predicate Carry(bs: seq<Block>, pages: seq<Page>) {
    && |bs| == |pages| && Encodable(bs)
    && (forall k :: 0 <= k < |bs| ==> bs[k].addr == pages[k].addr && bs[k].body[..256] == pages[k].bytes)
  }

  lemma {:induction false} BlocksCarry(pages: seq<Page>, family: Word32, device: Word32)
    requires GoodPages(pages)
    ensures Carry(PageBlocks(pages, family, device), pages)
  {
    var bs := PageBlocks(pages, family, device);
    forall k | 0 <= k < |bs| ensures bs[k].addr == pages[k].addr && bs[k].body[..256] == pages[k].bytes {
      assert bs[k] == PageBlock(pages[k], k, |pages|, family, device);
    }
  }

  /** `d` is what the pages hold, from the start of the first to the end of the last; byte `i` of it. */
  predicate IsImage(d: Decoded, pages: seq<Page>, i: nat)
    requires pages != []
  {
    && d.Decoded? && d.start == pages[0].addr
    && |d.data| == pages[|pages| - 1].addr + 256 - d.start
    && (i < |d.data| ==> d.data[i] == Lookup(pages, |pages|, d.start + i))
  }

  lemma {:induction false} CarriedImage(pages: seq<Page>, bs: seq<Block>, family: Word32, device: Word32, d: Decoded, i: nat)
    requires Ascending(pages) && pages != [] && Carry(bs, pages) && Chain(bs, family, device)
    requires d == Decoded(Image(bs, |bs|), bs[0].addr)
    ensures IsImage(d, pages, i)
  {
    PageImage(pages, bs, |pages|, i);
  }

  /** Whole pages in ascending order, near enough to each other, decode to what they hold. */
  lemma {:induction false} PagesDecode(pages: seq<Page>, family: Word32, device: Word32, start0: nat, d: Decoded, i: nat)
    requires Ascending(pages) && NearPages(pages) && GoodPages(pages)
    requires d == FromUf2(family, start0, EncodeBlocks(PageBlocks(pages, family, device), |pages|))
    ensures if pages == [] then d == Decoded([], start0) else IsImage(d, pages, i)
  {
    var bs := PageBlocks(pages, family, device);
    PagesChain(pages, family, device);
    ChainDecodes(bs, family, device, start0);
    if pages != [] {
      BlocksCarry(pages, family, device);
      CarriedImage(pages, bs, family, device, d, i);
    }
  }

  /** `d` is the memory that the writes describe: from the start of the first page to the end of the last, the last
      write to each address winning, and zero where nothing was written; byte `i` of it. */
  predicate IsMemory(d: Decoded, ws: seq<Write>, i: nat)
    requires ws != []
  {
    && d.Decoded? && d.start == PageOf(ws[0].addr)
    && |d.data| == PageOf(ws[|ws| - 1].addr) + 256 - d.start
    && (i < |d.data| ==> d.data[i] == Memory(ws, |ws|, d.start + i))
  }

  /** The pages hold what the writes store at address `a`, and begin and end where the writes do. */
  predicate Matches(pages: seq<Page>, ws: seq<Write>, a: nat) {
    && Lookup(pages, |pages|, a) == Memory(ws, |ws|, a)
    && (ws == [] <==> pages == [])
    && (ws != [] ==> pages[0].addr == PageOf(ws[0].addr) && pages[|pages| - 1].addr == PageOf(ws[|ws| - 1].addr))
  }

  lemma WrittenPages(ws: seq<Write>, pages: seq<Page>, a: nat)
    requires Grouped(ws) && Near(ws) && pages == PagesOf(ws, |ws|)
    ensures Ascending(pages) && NearPages(pages) && GoodPages(pages) && Matches(pages, ws, a)
  {
    PagesNear(ws, |ws|);
    PagesHold(ws, |ws|, a);
    PagesGood(pages);
  }

  lemma {:induction false} ImageIsMemory(d: Decoded, pages: seq<Page>, ws: seq<Write>, i: nat)
    requires ws != [] && pages != [] && IsImage(d, pages, i) && Matches(pages, ws, PageOf(ws[0].addr) + i)
    ensures IsMemory(d, ws, i)
  {
  }

  /** The file made of the pages of grouped, near writes decodes to the memory that the writes describe. */
  lemma {:induction false} WritesDecode(
    ws: seq<Write>, pages: seq<Page>, family: Word32, device: Word32, start0: nat, i: nat)
    requires Grouped(ws) && Near(ws) && pages == PagesOf(ws, |ws|)
    ensures GoodPages(pages)
    ensures var d := FromUf2(family, start0, EncodeBlocks(PageBlocks(pages, family, device), |pages|));
            if ws == [] then d == Decoded([], start0) else IsMemory(d, ws, i)
  {
    hide FromUf2, PageBlocks, EncodeBlocks, PagesOf, Lookup, Memory, Grouped, Near, Ascending, NearPages, GoodPages;
    hide IsImage, IsMemory;
    WrittenPages(ws, pages, (if ws == [] then 0 else PageOf(ws[0].addr)) + i);
    var d := FromUf2(family, start0, EncodeBlocks(PageBlocks(pages, family, device), |pages|));
    PagesDecode(pages, family, device, start0, d, i);
    if ws != [] {
      ImageIsMemory(d, pages, ws, i);
    }
  }

  /** HEX records that visit pages in ascending order, near enough to each other, can be encoded, and come back from
      UF2 as the memory they describe. */
  lemma {:induction false} HexDecodes(recs: seq<seq<Byte>>, family: Word32, device: Word32, start0: nat, i: nat)
    requires ReadRecords(recs, |recs|).Some?
    requires Grouped(WritesOf(recs, |recs|)) && Near(WritesOf(recs, |recs|))
    ensures var ws := WritesOf(recs, |recs|);
            var pages := ReadRecords(recs, |recs|).value.pages;
            && GoodPages(pages)
            && var d := FromUf2(family, start0, EncodeBlocks(PageBlocks(pages, family, device), |pages|));
               if ws == [] then d == Decoded([], start0) else IsMemory(d, ws, i)
  {
    hide FromUf2, PageBlocks, EncodeBlocks, Grouped, Near, Ascending, NearPages, IsImage, IsMemory;
    ReaderWrites(recs, |recs|);
    WritesDecode(WritesOf(recs, |recs|), ReadRecords(recs, |recs|).value.pages, family, device, start0, i);
  }
}
