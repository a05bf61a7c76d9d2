/** The UF2 encoder, decoder and Intel HEX reader of util/uf2conv.py, on values. */
module Uf2Model {
  import opened Bytes
  import opened Optional

  const UF2_MAGIC_START0: nat := 0x0A324655
  const UF2_MAGIC_START1: nat := 0x9E5D5157
  const UF2_MAGIC_END: nat := 0x0AB16F30
  const FLAG_FAMILY: nat := 0x2000
  const FLAG_EXTENSION: nat := 0x8000
  const MAX_PADDING: nat := 10 * 1024 * 1024

  type Word32 = w: nat | w < 0x1_0000_0000

  /** Little-endian, four bytes. */
  function Le32(w: Word32): (bs: seq<Byte>)
    ensures |bs| == 4
  {
    [w % 256, w / 256 % 256, w / 0x1_0000 % 256, w / 0x100_0000]
  }

  function FromLe32(bs: seq<Byte>): Word32
    requires |bs| == 4
  {
    (bs[0] as int) + 256 * (bs[1] as int) + 0x1_0000 * (bs[2] as int) + 0x100_0000 * (bs[3] as int)
  }

  function Pack(ws: seq<Word32>): (bs: seq<Byte>)
    ensures |bs| == 4 * |ws|
  {
    if ws == [] then [] else Le32(ws[0]) + Pack(ws[1..])
  }

  function Zeros(n: nat): (z: seq<Byte>)
    ensures |z| == n && forall i :: 0 <= i < n ==> z[i] == 0
  {
    seq(n, _ => 0)
  }

  /** One block: its eight header words and the bytes that follow them up to the end magic. */
  datatype Block = Block(flags: Word32, addr: Word32, len: Word32, no: Word32, total: Word32, family: Word32,
                         body: seq<Byte>)

  const BODY: nat := 476

  function EncodeBlock(b: Block): (bs: seq<Byte>)
    requires |b.body| == BODY
    ensures |bs| == 512
  {
    Pack([UF2_MAGIC_START0, UF2_MAGIC_START1, b.flags, b.addr, b.len, b.no, b.total, b.family])
    + b.body + Le32(UF2_MAGIC_END)
  }

  predicate Encodable(bs: seq<Block>) {
    forall k :: 0 <= k < |bs| ==> |bs[k].body| == BODY
  }

  /** The first `n` blocks of a file. */
  function EncodeBlocks(bs: seq<Block>, n: nat): (buf: seq<Byte>)
    requires Encodable(bs) && n <= |bs|
    ensures |buf| == 512 * n
  {
    if n == 0 then [] else EncodeBlocks(bs, n - 1) + EncodeBlock(bs[n - 1])
  }

  function Flags(family: Word32, device: Word32): (f: Word32) {
    (if family != 0 then FLAG_FAMILY else 0) + (if device != 0 then FLAG_EXTENSION else 0)
  }

  // ---------------------------------------------------------------- convert_to_uf2

  function BlockCount(n: nat): nat { (n + 255) / 256 }

  /** The contents padded with zeros to whole blocks. */
  function Padded(content: seq<Byte>): (p: seq<Byte>)
    ensures |p| == 256 * BlockCount(|content|)
    ensures content <= p
  {
    content + Zeros(256 * BlockCount(|content|) - |content|)
  }

  /** Every block address fits 32 bits; packing one that does not raises an exception. */
  predicate Fits(content: seq<Byte>, start: nat) {
    content == [] || start + 256 * (BlockCount(|content|) - 1) < 0x1_0000_0000
  }

  /** The `k`-th block of a file of `content` loaded at `start`. */
  function FileBlock(content: seq<Byte>, start: nat, family: Word32, k: nat): (b: Block)
    requires Fits(content, start) && k < BlockCount(|content|)
    ensures |b.body| == BODY
  {
    Block(Flags(family, 0), start + 256 * k, 256, k, BlockCount(|content|), family,
          Padded(content)[256 * k..256 * k + 256] + Zeros(BODY - 256))
  }

  function FileBlocks(content: seq<Byte>, start: nat, family: Word32, n: nat): (bs: seq<Block>)
    requires Fits(content, start) && n <= BlockCount(|content|)
    ensures |bs| == n && Encodable(bs)
    ensures forall k :: 0 <= k < n ==> bs[k] == FileBlock(content, start, family, k)
  {
    seq(n, k requires 0 <= k < n => FileBlock(content, start, family, k))
  }

  /** The UF2 file of a binary. */
  function FileBytes(content: seq<Byte>, start: nat, family: Word32): seq<Byte>
    requires Fits(content, start)
  {
    var n := BlockCount(|content|);
    EncodeBlocks(FileBlocks(content, start, family, n), n)
  }

  // ---------------------------------------------------------------- convert_from_uf2

  /** The variables of the decoder's loop. */
  datatype Decoder = Decoder(curr: Option<nat>, currFamily: Option<nat>, families: set<nat>, out: seq<Byte>, start: nat)

  /** A decoding result; `Failed` stands for the exceptions. */
  datatype Decoded = Decoded(data: seq<Byte>, start: nat) | Failed

  function HeaderWord(block: seq<Byte>, k: nat): Word32
    requires |block| == 512 && k < 8
  {
    FromLe32(block[4 * k..4 * k + 4])
  }

  predicate HasFlag(flags: nat, flag: nat)
    requires flag > 0
  {
    flags / flag % 2 == 1
  }

  /** What the decoder looks at in a block: whether the start magic is right, four header words, and the
      bytes from offset 32 on. */
  datatype Parsed = Parsed(magic: bool, flags: nat, addr: nat, len: nat, family: nat, body: seq<Byte>)

  function ParseBlock(block: seq<Byte>): (p: Parsed)
    requires |block| == 512
    ensures |p.body| == 480
  {
    Parsed(HeaderWord(block, 0) == UF2_MAGIC_START0 && HeaderWord(block, 1) == UF2_MAGIC_START1,
           HeaderWord(block, 2), HeaderWord(block, 3), HeaderWord(block, 4), HeaderWord(block, 7), block[32..])
  }

  /** The blocks of a file. */
  function ParseAll(buf: seq<Byte>): (ps: seq<Parsed>)
    ensures |ps| == |buf| / 512
    ensures forall i :: 0 <= i < |ps| ==> |ps[i].body| == 480
    ensures forall i :: 0 <= i < |ps| ==> ps[i] == ParseBlock(buf[512 * i..512 * i + 512])
  {
    seq(|buf| / 512, i requires 0 <= i < |buf| / 512 => ParseBlock(buf[512 * i..512 * i + 512]))
  }

  /** One turn of the decoder's loop. */
  function Accept(family: nat, d: Decoder, last: bool, p: Parsed): Option<Decoder>
    requires |p.body| == 480
  {
    if !p.magic then None
    else if HasFlag(p.flags, 1) then Some(d)
    else if p.len > BODY then None
    else
      var tagged := HasFlag(p.flags, FLAG_FAMILY);
      var currFamily := if tagged && d.currFamily == None then Some(p.family) else d.currFamily;
      var restart := d.curr == None || (tagged && Some(p.family) != currFamily);
      var curr := if restart then p.addr else d.curr.value;
      var start := if restart && (family == 0 || family == p.family) then p.addr else d.start;
      var padding := p.addr - curr;
      if padding < 0 || padding > MAX_PADDING || padding % 4 != 0 then None
      else
        var chunk := if family == 0 || (tagged && family == p.family) then p.body[..p.len] else [];
        var families := if tagged then d.families + {p.family} else d.families;
        var confused := last && |families| > 1 && family == 0;
        Some(Decoder(Some(p.addr + p.len), if restart then Some(p.family) else currFamily, families,
                     if confused then [] else d.out + Zeros(padding) + chunk, if confused then 0 else start))
  }

  /** The decoder after the first `n` blocks, if none of them raised an exception. */
  function DecodeFrom(family: nat, start: nat, ps: seq<Parsed>, n: nat): Option<Decoder>
    requires n <= |ps| && forall i :: 0 <= i < |ps| ==> |ps[i].body| == 480
  {
    if n == 0 then Some(Decoder(None, None, {}, [], start))
    else
      match DecodeFrom(family, start, ps, n - 1)
      case None => None
      case Some(d) => Accept(family, d, n == |ps|, ps[n - 1])
  }

  /** `convert_from_uf2` with the globals `familyid` and `appstartaddr`. */
  function FromUf2(family: nat, start: nat, buf: seq<Byte>): Decoded {
    var ps := ParseAll(buf);
    match DecodeFrom(family, start, ps, |ps|)
    case None => Failed
    case Some(d) => Decoded(d.out, d.start)
  }

  /** The start address that the first `n` blocks leave behind, up to the one that raised an exception. */
  function StartLeft(family: nat, start: nat, ps: seq<Parsed>, n: nat): nat
    requires n <= |ps| && forall i :: 0 <= i < |ps| ==> |ps[i].body| == 480
  {
    match DecodeFrom(family, start, ps, n)
    case Some(d) => d.start
    case None => if n == 0 then start else StartLeft(family, start, ps, n - 1)
  }

  // ---------------------------------------------------------------- convert_from_hex_to_uf2

  /** A page of memory under construction. */
  datatype Page = Page(addr: nat, bytes: seq<Byte>)

  /** The variables of the reader's loop; the current block is the last page. */
  datatype Reader = Reader(upper: nat, start: Option<nat>, pages: seq<Page>, done: bool)

  const READER := Reader(0, None, [], false)

  function PageOf(addr: nat): nat { addr / 256 * 256 }

  function PutByte(pages: seq<Page>, addr: nat, b: Byte): (r: seq<Page>) {
    var n := |pages|;
    if n == 0 || pages[n - 1].addr != PageOf(addr) then
      pages + [Page(PageOf(addr), Zeros(256)[addr % 256 := b])]
    else if |pages[n - 1].bytes| == 256 then
      pages[n - 1 := Page(pages[n - 1].addr, pages[n - 1].bytes[addr % 256 := b])]
    else pages
  }

  /** Stores the first `n` data bytes of a record at `addr` and up. */
  function PutBytes(pages: seq<Page>, addr: nat, data: seq<Byte>, n: nat): seq<Page>
    requires n <= |data|
  {
    if n == 0 then pages else PutByte(PutBytes(pages, addr, data, n - 1), addr + n - 1, data[n - 1])
  }

  /** The data of a record: between the four leading bytes and the checksum. */
  function RecordData(rec: seq<Byte>): seq<Byte> {
    if |rec| >= 5 then rec[4..|rec| - 1] else []
  }

  /** `(hi << 8) | lo` */
  function Pair(hi: Byte, lo: Byte): (w: nat)
    ensures w < 0x1_0000
  {
    256 * (hi as int) + lo as int
  }

  /** One record (its bytes, length first); `None` when a field that is needed is missing. */
  function ReadRecord(r: Reader, rec: seq<Byte>): Option<Reader> {
    if r.done then Some(r)
    else if |rec| < 4 then None
    else if rec[3] == 4 then
      if |rec| < 6 then None else Some(r.(upper := Pair(rec[4], rec[5]) * 0x1_0000))
    else if rec[3] == 2 then
      if |rec| < 6 then None else Some(r.(upper := Pair(rec[4], rec[5]) * 16))
    else if rec[3] == 1 then Some(r.(done := true))
    else if rec[3] == 0 then
      var addr := r.upper + Pair(rec[1], rec[2]);
      var data := RecordData(rec);
      Some(Reader(r.upper, if r.start == None then Some(addr) else r.start,
                  PutBytes(r.pages, addr, data, |data|), false))
    else Some(r)
  }

  function ReadRecords(recs: seq<seq<Byte>>, n: nat): Option<Reader>
    requires n <= |recs|
  {
    if n == 0 then Some(READER)
    else
      match ReadRecords(recs, n - 1)
      case None => None
      case Some(r) => ReadRecord(r, recs[n - 1])
  }

  /** The start address that the first `n` records leave behind, up to the one that raised an exception. */
  function StartRead(recs: seq<seq<Byte>>, n: nat): Option<nat>
    requires n <= |recs|
  {
    match ReadRecords(recs, n)
    case Some(r) => r.start
    case None => if n == 0 then None else StartRead(recs, n - 1)
  }

  /** The device-type extension that follows the payload. */
  function Extension(device: Word32): (e: seq<Byte>)
    ensures |e| == 220
  {
    if device != 0 then [0x08, 0x29, 0xA7, 0xC8] + Le32(device) + Zeros(212) else Zeros(220)
  }

  predicate GoodPages(pages: seq<Page>) {
    |pages| < 0x1_0000_0000
    && forall k :: 0 <= k < |pages| ==> |pages[k].bytes| == 256 && pages[k].addr < 0x1_0000_0000
  }

  /** The block that `Block.encode` makes of a page. */
  function PageBlock(p: Page, no: Word32, total: Word32, family: Word32, device: Word32): (b: Block)
    requires |p.bytes| == 256 && p.addr < 0x1_0000_0000
    ensures |b.body| == BODY && b.body[..256] == p.bytes
    ensures b.addr == p.addr && b.len == 256 && b.family == family && b.flags == Flags(family, device)
  {
    Block(Flags(family, device), p.addr, 256, no, total, family, p.bytes + Extension(device))
  }

  /** `Block.encode` for every page. */
  function PageBlocks(pages: seq<Page>, family: Word32, device: Word32): (bs: seq<Block>)
    requires GoodPages(pages)
    ensures |bs| == |pages| && Encodable(bs)
    ensures forall k :: 0 <= k < |bs| ==> bs[k] == PageBlock(pages[k], k, |pages|, family, device)
  {
    seq(|pages|, k requires 0 <= k < |pages| => PageBlock(pages[k], k, |pages|, family, device))
  }
}
