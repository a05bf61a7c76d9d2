/** The UF2 converter as it runs: its globals are the fields of `Converter`. */
module Uf2 {
  import opened Bytes
  import opened Optional
  import opened Uf2Model
  import opened Uf2Proofs

  /** A 256-byte page that the Intel HEX reader fills in place. */
  class MemoryBlock {
    const addr: nat
    const bytes: array<Byte>

    constructor (addr: nat)
      ensures this.addr == addr && fresh(bytes) && bytes.Length == 256 && bytes[..] == Zeros(256)
    {
      this.addr := addr;
      bytes := new Byte[256](_ => 0);
      new;
      assert bytes[..] == Zeros(256);
    }

    ghost function Value(): (p: Page)
      reads bytes
      ensures p.addr == addr && |p.bytes| == bytes.Length
    {
      Page(addr, bytes[..])
    }

    /** The UF2 block of this page; nothing when a header word does not fit its 32 bits. */
    method Encode(blockNo: nat, numBlocks: nat, familyId: Word32, deviceType: Word32) returns (r: Option<seq<Byte>>)
      requires bytes.Length == 256
      ensures r.Some? <==> addr < 0x1_0000_0000 && blockNo < 0x1_0000_0000 && numBlocks < 0x1_0000_0000
      ensures r.Some? ==> r.value == EncodeBlock(PageBlock(Value(), blockNo, numBlocks, familyId, deviceType))
    {
      if addr >= 0x1_0000_0000 || blockNo >= 0x1_0000_0000 || numBlocks >= 0x1_0000_0000 {
        return None;
      }
      var flags: Word32 := 0;
      if familyId != 0 {
        flags := flags + FLAG_FAMILY;
      }
      if deviceType != 0 {
        flags := flags + FLAG_EXTENSION;
      }
      var hd := Pack([UF2_MAGIC_START0, UF2_MAGIC_START1, flags, addr, 256, blockNo, numBlocks, familyId]);
      var tail := Tail(deviceType);
      r := Some(hd + bytes[..] + tail + Le32(UF2_MAGIC_END));
      assert hd + bytes[..] + tail == hd + (bytes[..] + tail);
    }
  }

  /** The device type and the zeros that fill a block up to its end magic. */
  method Tail(deviceType: Word32) returns (tail: seq<Byte>)
    ensures tail == Extension(deviceType)
  {
    tail := [];
    if deviceType != 0 {
      tail := [0x08, 0x29, 0xA7, 0xC8] + Le32(deviceType);
    }
    ghost var head := tail;
    while |tail| < 512 - 4 - 32 - 256
      invariant |head| <= |tail| <= 220 && tail == head + Zeros(|tail| - |head|)
    {
      tail := tail + [0];
    }
  }

  ghost function Buffers(blocks: seq<MemoryBlock>): set<object> {
    set i | 0 <= i < |blocks| :: blocks[i].bytes
  }

  /** The blocks start at page boundaries and own one page buffer each. */
  ghost predicate Separate(blocks: seq<MemoryBlock>) {
    && (forall i :: 0 <= i < |blocks| ==> blocks[i].addr % 256 == 0 && blocks[i].bytes.Length == 256)
    && forall i, j :: 0 <= i < j < |blocks| ==> blocks[i].bytes != blocks[j].bytes
  }

  ghost function Values(blocks: seq<MemoryBlock>): (ps: seq<Page>)
    reads Buffers(blocks)
    ensures |ps| == |blocks|
    ensures forall i :: 0 <= i < |blocks| ==> ps[i] == blocks[i].Value()
  {
    seq(|blocks|, i requires 0 <= i < |blocks| reads Buffers(blocks) => blocks[i].Value())
  }

  /** Starts the block of `addr` and stores a byte there. */
  method NewBlock(addr: nat, b: Byte) returns (block: MemoryBlock)
    ensures fresh(block.bytes) && block.bytes.Length == 256 && block.addr == PageOf(addr)
    ensures block.Value() == Page(PageOf(addr), Zeros(256)[addr % 256 := b])
  {
    block := new MemoryBlock(addr / 256 * 256);
    block.bytes[addr % 256] := b;
    assert block.bytes[..] == Zeros(256)[addr % 256 := b];
  }

  /** Stores one byte of a data record: in the current block, or in a new one for another page. */
  method StoreByte(blocks: seq<MemoryBlock>, addr: nat, b: Byte) returns (r: seq<MemoryBlock>)
    requires Separate(blocks)
    modifies Buffers(blocks)
    ensures Separate(r) && Values(r) == PutByte(old(Values(blocks)), addr, b)
    ensures Grown(blocks, r)
  {
    var n := |blocks|;
    ghost var was := Values(blocks);
    if n == 0 || blocks[n - 1].addr / 256 * 256 != addr / 256 * 256 {
      var block := NewBlock(addr, b);
      r := blocks + [block];
      assert Values(r) == was + [block.Value()];
    } else {
      blocks[n - 1].bytes[addr % 256] := b;
      r := blocks;
      assert blocks[n - 1].bytes[..] == was[n - 1].bytes[addr % 256 := b];
      assert Values(r) == was[n - 1 := Page(was[n - 1].addr, was[n - 1].bytes[addr % 256 := b])];
    }
  }

  lemma PutBytesNext(pages: seq<Page>, addr: nat, data: seq<Byte>, n: nat)
    requires n < |data|
    ensures PutBytes(pages, addr, data, n + 1) == PutByte(PutBytes(pages, addr, data, n), addr + n, data[n])
  {
  }

  /** Every page buffer of `r` is one of `blocks` or was allocated since. */
  twostate predicate Grown(blocks: seq<MemoryBlock>, new r: seq<MemoryBlock>) {
    forall i :: 0 <= i < |r| ==> fresh(r[i].bytes) || r[i].bytes in Buffers(blocks)
  }

  /** Stores the data of a record. */
  method StoreRecord(blocks: seq<MemoryBlock>, start: nat, rec: seq<Byte>) returns (r: seq<MemoryBlock>)
    requires Separate(blocks)
    modifies Buffers(blocks)
    ensures Separate(r) && Grown(blocks, r)
    ensures Values(r) == PutBytes(old(Values(blocks)), start, RecordData(rec), |RecordData(rec)|)
  {
    ghost var was := Values(blocks);
    ghost var data := RecordData(rec);
    var addr := start;
    r := blocks;
    var i := 4;
    while i < |rec| - 1
      invariant 4 <= i <= |data| + 4 && addr == start + i - 4
      invariant Separate(r) && Grown(blocks, r)
      invariant Values(r) == PutBytes(was, start, data, i - 4)
    {
      r := StoreByte(r, addr, rec[i]);
      assert Values(r) == PutBytes(was, start, data, i - 4 + 1) by {
        PutBytesNext(was, start, data, i - 4);
      }
      addr := addr + 1;
      i := i + 1;
    }
  }

  /** `out` is the first `n` blocks of the file, if there is a file. */
  ghost predicate Written(out: seq<Byte>, content: seq<Byte>, start: nat, family: Word32, n: nat)
    requires n <= BlockCount(|content|)
  {
    Fits(content, start) ==> out == EncodeBlocks(FileBlocks(content, start, family, BlockCount(|content|)), n)
  }

  lemma WrittenStep(out: seq<Byte>, block: seq<Byte>, content: seq<Byte>, start: nat, family: Word32, n: nat)
    requires n < BlockCount(|content|) && Written(out, content, start, family, n)
    requires Fits(content, start) ==> block == EncodeBlock(FileBlock(content, start, family, n))
    ensures Written(out + block, content, start, family, n + 1)
  {
    if Fits(content, start) {
      assert FileBlocks(content, start, family, BlockCount(|content|))[n] == FileBlock(content, start, family, n);
    }
  }

  lemma WrittenAll(out: seq<Byte>, content: seq<Byte>, start: nat, family: Word32)
    requires Written(out, content, start, family, BlockCount(|content|)) && Fits(content, start)
    ensures out == FileBytes(content, start, family)
  {
  }

  /** The script's globals. Before a conversion the start address is set from the command line; only reading a HEX
      file without data records leaves it unset. */
  class Converter {
    var appStartAddr: Option<nat>
    var familyId: Word32
    var deviceType: Word32

    constructor (base: nat, familyId: Word32, deviceType: Word32)
      ensures appStartAddr == Some(base) && this.familyId == familyId && this.deviceType == deviceType
    {
      appStartAddr := Some(base);
      this.familyId := familyId;
      this.deviceType := deviceType;
    }

    /** Splits a binary into UF2 blocks; nothing when an address does not fit its 32 bits. */
    method ConvertToUf2(content: seq<Byte>) returns (r: Option<seq<Byte>>)
      requires appStartAddr.Some?
      ensures var start := appStartAddr.value;
              r == if Fits(content, start) then Some(FileBytes(content, start, familyId)) else None
    {
      var start := appStartAddr.value;
      var dataPadding: seq<Byte> := [];
      while |dataPadding| < 512 - 256 - 32 - 4
        invariant |dataPadding| <= 220 && |dataPadding| % 4 == 0 && dataPadding == Zeros(|dataPadding|)
      {
        dataPadding := dataPadding + [0, 0, 0, 0];
      }
      var numBlocks := (|content| + 255) / 256;
      var out: seq<Byte> := [];
      var blockNo := 0;
      while blockNo < numBlocks
        invariant 0 <= blockNo <= numBlocks
        invariant blockNo > 0 ==> start + 256 * (blockNo - 1) < 0x1_0000_0000
        invariant Written(out, content, start, familyId, blockNo)
      {
        var ptr := 256 * blockNo;
        if ptr + start >= 0x1_0000_0000 || numBlocks >= 0x1_0000_0000 {
          return None;
        }
        var block := FileBlockBytes(content, start, blockNo, dataPadding);
        WrittenStep(out, block, content, start, familyId, blockNo);
        out := out + block;
        blockNo := blockNo + 1;
      }
      WrittenAll(out, content, start, familyId);
      r := Some(out);
    }

    /** The 512 bytes of one block of a binary. */
    method FileBlockBytes(content: seq<Byte>, start: nat, blockNo: nat, dataPadding: seq<Byte>) returns (block: seq<Byte>)
      requires blockNo < BlockCount(|content|) < 0x1_0000_0000 && 256 * blockNo + start < 0x1_0000_0000
      requires dataPadding == Zeros(220)
      ensures Fits(content, start) ==> block == EncodeBlock(FileBlock(content, start, familyId, blockNo))
    {
      var ptr := 256 * blockNo;
      var chunk := content[ptr..if ptr + 256 <= |content| then ptr + 256 else |content|];
      var flags: Word32 := 0;
      if familyId != 0 {
        flags := FLAG_FAMILY;
      }
      var hd := Pack([UF2_MAGIC_START0, UF2_MAGIC_START1, flags, ptr + start, 256, blockNo, BlockCount(|content|), familyId]);
      ghost var short := chunk;
      while |chunk| < 256
        invariant |short| <= |chunk| <= 256 && chunk == short + Zeros(|chunk| - |short|)
      {
        chunk := chunk + [0];
      }
      assert chunk == Padded(content)[ptr..ptr + 256];
      block := hd + chunk + dataPadding + Le32(UF2_MAGIC_END);
      assert hd + chunk + dataPadding == hd + (chunk + dataPadding);
    }

    /** One turn of the decoder's loop: `d` holds its local variables and the start address. Nothing comes back when
        the block raises an exception. */
    method DecodeBlock(d: Decoder, block: seq<Byte>, last: bool) returns (r: Option<Decoder>)
      requires |block| == 512
      ensures r == Accept(familyId, d, last, ParseBlock(block))
    {
      if HeaderWord(block, 0) != UF2_MAGIC_START0 || HeaderWord(block, 1) != UF2_MAGIC_START1 {
        return None;
      }
      r := DecodeContents(d, HeaderWord(block, 2), HeaderWord(block, 3), HeaderWord(block, 4), HeaderWord(block, 7),
                          block[32..], last);
    }

    /** The rest of the turn, for a block with the right magic number. */
    method DecodeContents(d: Decoder, flags: nat, newAddr: nat, dataLen: nat, family: nat, body: seq<Byte>, last: bool)
      returns (r: Option<Decoder>)
      requires |body| == 480
      ensures r == Accept(familyId, d, last, Parsed(true, flags, newAddr, dataLen, family, body))
    {
      if HasFlag(flags, 1) {
        return Some(d);
      }
      if dataLen > 476 {
        return None;
      }
      var tagged := HasFlag(flags, FLAG_FAMILY);
      var curr, currFamily, out, start := d.curr, d.currFamily, d.out, d.start;
      var families: set<nat> := d.families;
      if tagged && currFamily == None {
        currFamily := Some(family);
      }
      if curr == None || (tagged && Some(family) != currFamily) {
        currFamily := Some(family);
        curr := Some(newAddr);
        if familyId == 0 || familyId == family {
          start := newAddr;
        }
      }
      var padding := newAddr - curr.value;
      if padding < 0 || padding > 10 * 1024 * 1024 || padding % 4 != 0 {
        return None;
      }
      out := Pad(out, padding);
      if familyId == 0 || (tagged && familyId == family) {
        out := out + body[..dataLen];
      } else {
        assert out + [] == out;
      }
      curr := Some(newAddr + dataLen);
      if tagged {
        families := families + {family};
      }
      if last && |families| > 1 && familyId == 0 {
        out := [];
        start := 0;
      }
      r := Some(Decoder(curr, currFamily, families, out, start));
    }

    /** Appends `padding` zeros, a word at a time. */
    method Pad(out: seq<Byte>, padding: nat) returns (r: seq<Byte>)
      requires padding % 4 == 0
      ensures r == out + Zeros(padding)
    {
      r := out;
      var left := padding;
      while left > 0
        invariant 0 <= left <= padding && left % 4 == 0
        invariant r == out + Zeros(padding - left)
      {
        left := left - 4;
        r := r + [0, 0, 0, 0];
      }
    }

    /** Decodes block `blockNo` of a file after the blocks before it. */
    method DecodeNext(buf: seq<Byte>, ghost start: nat, blockNo: nat, d: Decoder) returns (r: Option<Decoder>)
      requires blockNo < |buf| / 512 && DecodeFrom(familyId, start, ParseAll(buf), blockNo) == Some(d)
      ensures r == DecodeFrom(familyId, start, ParseAll(buf), blockNo + 1)
    {
      var ptr := blockNo * 512;
      var block := buf[ptr..ptr + 512];
      assert ParseAll(buf)[blockNo] == ParseBlock(block);
      DecodeStep(familyId, start, ParseAll(buf), blockNo + 1, d);
      r := DecodeBlock(d, block, blockNo == |buf| / 512 - 1);
    }

    /** Extracts the selected family from a UF2 file, and the address it belongs at. */
    method ConvertFromUf2(buf: seq<Byte>) returns (r: Option<seq<Byte>>)
      requires appStartAddr.Some?
      modifies this`appStartAddr
      ensures Returns(FromUf2(familyId, old(appStartAddr).value, buf), r, appStartAddr)
      ensures appStartAddr == Some(StartLeft(familyId, old(appStartAddr).value, ParseAll(buf), |buf| / 512))
    {
      var numBlocks := |buf| / 512;
      ghost var start := appStartAddr.value;
      var d := Decoder(None, None, {}, [], appStartAddr.value);
      var blockNo := 0;
      while blockNo < numBlocks
        invariant 0 <= blockNo <= numBlocks
        invariant appStartAddr == Some(d.start)
        invariant DecodeFrom(familyId, start, ParseAll(buf), blockNo) == Some(d)
      {
        var next := DecodeNext(buf, start, blockNo, d);
        if next == None {
          Fails(familyId, start, buf, blockNo, d);
          return None;
        }
        d := next.value;
        appStartAddr := Some(d.start);
        blockNo := blockNo + 1;
      }
      Succeeds(familyId, start, buf, d);
      r := Some(d.out);
    }

    /** Reads the bytes of Intel HEX records, length byte first, and encodes the pages that they fill. */
    method ConvertFromHexToUf2(recs: seq<seq<Byte>>) returns (r: Option<seq<Byte>>)
      modifies this`appStartAddr
      ensures appStartAddr == StartRead(recs, |recs|)
      ensures r == match ReadRecords(recs, |recs|)
                   case None => None
                   case Some(reader) => PageFile(reader.pages, familyId, deviceType)
    {
      appStartAddr := None;
      var upper: nat := 0;
      var blocks: seq<MemoryBlock> := [];
      var i, done := 0, false;
      while i < |recs| && !done
        invariant 0 <= i <= |recs|
        invariant Separate(blocks) && fresh(Buffers(blocks))
        invariant ReadRecords(recs, i) == Some(Reader(upper, appStartAddr, Values(blocks), done))
      {
        var rec := recs[i];
        i := i + 1;
        if |rec| < 4 {
          NoRecordAfter(recs, i, |recs|, appStartAddr);
          return None;
        }
        var tp := rec[3];
        if (tp == 4 || tp == 2) && |rec| < 6 {
          NoRecordAfter(recs, i, |recs|, appStartAddr);
          return None;
        }
        if tp == 4 {
          upper := Pair(rec[4], rec[5]) * 0x1_0000;
        } else if tp == 2 {
          upper := Pair(rec[4], rec[5]) * 16;
        } else if tp == 1 {
          done := true;
        } else if tp == 0 {
          var addr := upper + Pair(rec[1], rec[2]);
          if appStartAddr == None {
            appStartAddr := Some(addr);
          }
          blocks := StoreRecord(blocks, addr, rec);
        }
      }
      if done {
        DoneAfter(recs, i, |recs|);
      }
      r := EncodeAll(blocks);
    }

    /** Appends the encoding of block `i`. */
    method EncodeNext(blocks: seq<MemoryBlock>, i: nat, out: seq<Byte>) returns (r: Option<seq<Byte>>)
      requires Separate(blocks) && i < |blocks| && Encoded(out, Values(blocks), familyId, deviceType, i)
      ensures r.Some? <==> blocks[i].addr < 0x1_0000_0000 && |blocks| < 0x1_0000_0000 && i < 0x1_0000_0000
      ensures r.Some? ==> Encoded(r.value, Values(blocks), familyId, deviceType, i + 1)
    {
      ghost var pages := Values(blocks);
      assert pages[i] == blocks[i].Value();
      var next := blocks[i].Encode(i, |blocks|, familyId, deviceType);
      if next == None {
        return None;
      }
      assert Values(blocks) == pages;
      EncodedStep(out, next.value, pages, familyId, deviceType, i);
      r := Some(out + next.value);
    }

    /** Encodes the blocks in order. */
    method EncodeAll(blocks: seq<MemoryBlock>) returns (r: Option<seq<Byte>>)
      requires Separate(blocks)
      ensures r == PageFile(Values(blocks), familyId, deviceType)
    {
      var numBlocks := |blocks|;
      r := Some([]);
      var i := 0;
      while i < numBlocks && r.Some?
        invariant 0 <= i <= numBlocks
        invariant r.Some? ==> Encoded(r.value, Values(blocks), familyId, deviceType, i)
        invariant r.Some? <==> Fit(blocks, i)
      {
        r := EncodeNext(blocks, i, r.value);
        i := i + 1;
      }
      FitPages(blocks, i);
      if r.Some? {
        EncodedAll(r.value, Values(blocks), familyId, deviceType);
      }
    }
  }

  /** The header words of the first `n` blocks fit 32 bits. */
  ghost predicate Fit(blocks: seq<MemoryBlock>, n: nat)
    requires n <= |blocks|
  {
    && (n > 0 ==> |blocks| < 0x1_0000_0000)
    && forall k :: 0 <= k < n ==> blocks[k].addr < 0x1_0000_0000
  }

  lemma FitPages(blocks: seq<MemoryBlock>, n: nat)
    requires Separate(blocks) && n <= |blocks|
    ensures !Fit(blocks, n) ==> !GoodPages(Values(blocks))
    ensures Fit(blocks, |blocks|) ==> GoodPages(Values(blocks))
  {
    forall k | 0 <= k < |blocks| ensures Values(blocks)[k].addr == blocks[k].addr && |Values(blocks)[k].bytes| == 256 {
      assert Values(blocks)[k] == blocks[k].Value();
    }
  }

  /** The start address after the exception at block `n`. */
  lemma {:induction false} StartStays(family: nat, start: nat, ps: seq<Parsed>, n: nat, d: Decoder, m: nat)
    requires n < m <= |ps| && forall i :: 0 <= i < |ps| ==> |ps[i].body| == 480
    requires DecodeFrom(family, start, ps, n) == Some(d) && DecodeFrom(family, start, ps, n + 1) == None
    ensures DecodeFrom(family, start, ps, m) == None && StartLeft(family, start, ps, m) == d.start
  {
    hide Accept;
    if n + 1 < m {
      StartStays(family, start, ps, n, d, m - 1);
    }
  }

  lemma {:induction false} Fails(family: nat, start: nat, buf: seq<Byte>, n: nat, d: Decoder)
    requires n < |buf| / 512 && DecodeFrom(family, start, ParseAll(buf), n) == Some(d)
    requires DecodeFrom(family, start, ParseAll(buf), n + 1) == None
    ensures FromUf2(family, start, buf) == Failed
    ensures StartLeft(family, start, ParseAll(buf), |buf| / 512) == d.start
  {
    hide DecodeFrom, StartLeft;
    StartStays(family, start, ParseAll(buf), n, d, |buf| / 512);
  }

  lemma Succeeds(family: nat, start: nat, buf: seq<Byte>, d: Decoder)
    requires DecodeFrom(family, start, ParseAll(buf), |buf| / 512) == Some(d)
    ensures FromUf2(family, start, buf) == Decoded(d.out, d.start)
    ensures StartLeft(family, start, ParseAll(buf), |buf| / 512) == d.start
  {
  }

  /** A conversion that gave `d` returned its data and set the start address; a failed one returned nothing. */
  predicate Returns(d: Decoded, r: Option<seq<Byte>>, start: Option<nat>) {
    if d.Failed? then r == None else r == Some(d.data) && start == Some(d.start)
  }

  lemma {:induction false} NoRecordAfter(recs: seq<seq<Byte>>, m: nat, n: nat, start: Option<nat>)
    requires m <= n <= |recs| && ReadRecords(recs, m) == None && StartRead(recs, m) == start
    ensures ReadRecords(recs, n) == None && StartRead(recs, n) == start
  {
    if m < n {
      NoRecordAfter(recs, m, n - 1, start);
    }
  }

  lemma {:induction false} DoneAfter(recs: seq<seq<Byte>>, m: nat, n: nat)
    requires m <= n <= |recs| && ReadRecords(recs, m).Some? && ReadRecords(recs, m).value.done
    ensures ReadRecords(recs, n) == ReadRecords(recs, m)
  {
    if m < n {
      DoneAfter(recs, m, n - 1);
    }
  }

  /** The UF2 file of the pages, if there is one. */
  function PageFile(pages: seq<Page>, family: Word32, device: Word32): Option<seq<Byte>> {
    if GoodPages(pages) then Some(EncodeBlocks(PageBlocks(pages, family, device), |pages|)) else None
  }

  /** `out` is the first `n` blocks of the file, if there is a file. */
  ghost predicate Encoded(out: seq<Byte>, pages: seq<Page>, family: Word32, device: Word32, n: nat)
    requires n <= |pages|
  {
    GoodPages(pages) ==> out == EncodeBlocks(PageBlocks(pages, family, device), n)
  }

  lemma EncodedStep(out: seq<Byte>, block: seq<Byte>, pages: seq<Page>, family: Word32, device: Word32, n: nat)
    requires n < |pages| && Encoded(out, pages, family, device, n)
    requires GoodPages(pages) ==> block == EncodeBlock(PageBlock(pages[n], n, |pages|, family, device))
    ensures Encoded(out + block, pages, family, device, n + 1)
  {
    if GoodPages(pages) {
      assert PageBlocks(pages, family, device)[n] == PageBlock(pages[n], n, |pages|, family, device);
    }
  }

  lemma EncodedAll(out: seq<Byte>, pages: seq<Page>, family: Word32, device: Word32)
    requires Encoded(out, pages, family, device, |pages|) && GoodPages(pages)
    ensures PageFile(pages, family, device) == Some(out)
  {
  }
}
