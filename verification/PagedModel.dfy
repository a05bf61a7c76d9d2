/** External EEPROM and flash chips whose page writes wrap inside their page, on values, and the linear
    write that the drivers are to make of them. */
module PagedModel {
  import opened Bytes
  import opened Division
  import Bitwise

  /** How a chip combines a written byte with what it holds: flash can only clear bits. */
  datatype Chip = Eeprom | Flash

  function Combine(chip: Chip, was: Byte, b: Byte): Byte {
    if chip.Flash? then Bitwise.And(was, b) else b
  }

  /** How many bytes there are from `addr` to the end of its page. */
  function PageLeft(page: nat, addr: nat): (n: nat)
    requires page > 0
    ensures 0 < n <= page <= addr + n
    decreases addr
  {
    if addr < page then page - addr else PageLeft(page, addr - page)
  }

  lemma {:induction false} PageLeftIsMod(page: nat, addr: nat)
    requires page > 0
    ensures PageLeft(page, addr) == page - addr % page
    decreases addr
  {
    if addr >= page {
      PageLeftIsMod(page, addr - page);
      var q, r := (addr - page) / page, (addr - page) % page;
      assert addr == (q + 1) * page + r;
      DivMod(q + 1, r, page);
    } else {
      DivMod(0, addr, page);
    }
  }

  /** The cell that byte `k` of a page write at `addr` lands in: past the end of the page, the address
      counter of the chip goes back to the start of that page. */
  function Cell(page: nat, addr: nat, k: nat): (c: nat)
    requires page > 0
    decreases k
  {
    var left := PageLeft(page, addr);
    if k < left then addr + k else Cell(page, addr + left - page, k - left)
  }

  /** What the chip does with one page write. */
  function PageWrite(chip: Chip, page: nat, mem: seq<Byte>, addr: nat, data: seq<Byte>): (r: seq<Byte>)
    requires page > 0
    ensures |r| == |mem|
    decreases |data|
  {
    if data == [] then mem
    else
      var k := |data| - 1;
      var m := PageWrite(chip, page, mem, addr, data[..k]);
      var c := Cell(page, addr, k);
      if c < |m| then m[c := Combine(chip, m[c], data[k])] else m
  }

  /** What a write of `data` at `addr` is meant to do. */
  function LinearWrite(chip: Chip, mem: seq<Byte>, addr: nat, data: seq<Byte>): (r: seq<Byte>)
    ensures |r| == |mem|
  {
    seq(|mem|, a requires 0 <= a < |mem| =>
      if addr <= a < addr + |data| then Combine(chip, mem[a], data[a - addr]) else mem[a])
  }

  /** The length of the next chunk: what fits in the page, of `len`. */
  function ChunkLength(page: nat, addr: nat, len: nat): (n: nat)
    requires page > 0
    ensures n <= len
    ensures len > 0 ==> n > 0
  {
    if PageLeft(page, addr) > len then len else PageLeft(page, addr)
  }

  lemma ChunkFits(page: nat, addr: nat, len: nat)
    requires page > 0
    ensures var n := ChunkLength(page, addr, len);
            && n == (if page - addr % page > len then len else page - addr % page)
            && addr % page + n <= page
            && (n < len ==> addr % page + n == page)
  {
    PageLeftIsMod(page, addr);
  }

  /** One bus transaction that writes. */
  datatype Transaction = Transaction(addr: nat, len: nat)

  predicate InOnePage(page: nat, t: Transaction)
    requires page > 0
  {
    t.addr % page + t.len <= page
  }

  // ---------------------------------------------------------------- addresses on the bus

  function Power256(n: nat): (p: nat)
    ensures p > 0
  {
    if n == 0 then 1 else 256 * Power256(n - 1)
  }

  /** The `size` low bytes of an address, most significant first. */
  function AddressBytes(addr: nat, size: nat): (bs: seq<Byte>)
    ensures |bs| == size
  {
    if size == 0 then [] else AddressBytes(addr / 256, size - 1) + [addr % 256]
  }

  function FromAddressBytes(bs: seq<Byte>): nat {
    if bs == [] then 0 else FromAddressBytes(bs[..|bs| - 1]) * 256 + bs[|bs| - 1]
  }

  /** An address that fits the address bytes of the chip reaches it unchanged. */
  lemma {:induction false} AddressRoundTrip(addr: nat, size: nat)
    requires addr < Power256(size)
    ensures FromAddressBytes(AddressBytes(addr, size)) == addr
  {
    if size > 0 {
      AddressRoundTrip(addr / 256, size - 1);
      var bs := AddressBytes(addr, size);
      assert bs[..size - 1] == AddressBytes(addr / 256, size - 1);
    }
  }

  /** Byte `i` of a number, counted from the least significant. */
  function ByteAt(x: nat, i: nat): Byte {
    if i == 0 then x % 256 else ByteAt(x / 256, i - 1)
  }

  /** The bytes of an address go out with the most significant first. */
  lemma {:induction false} AddressBytesInOrder(addr: nat, size: nat, i: nat)
    requires i < size
    ensures AddressBytes(addr, size)[size - 1 - i] == ByteAt(addr, i)
  {
    if i > 0 {
      AddressBytesInOrder(addr / 256, size - 1, i - 1);
    }
  }

  // ---------------------------------------------------------------- copying with a uint8_t counter

  /** The loop `for (uint8_t i = 0; i < n; i++)` comes to its end: its counter, which runs from 0 to 255 and starts again,
      reaches `n`. */
  ghost predicate CopyEnds(n: nat) {
    exists k: nat :: Counter(k) >= n
  }

  function Counter(k: nat): (i: nat)
    ensures i < 256
  {
    k % 256
  }

  lemma CopyEndsExactly(n: nat)
    ensures CopyEnds(n) <==> n <= 255
  {
    assert Counter(255) == 255;
  }

  /** Every chunk of a write of `len` bytes at `addr` can be copied. */
  ghost predicate AllCopied(page: nat, addr: nat, len: nat)
    requires page > 0
    decreases len
  {
    len == 0 ||
    (&& CopyEnds(ChunkLength(page, addr, len))
     && AllCopied(page, addr + ChunkLength(page, addr, len), len - ChunkLength(page, addr, len)))
  }

  lemma {:induction false} AlignedCopied(page: nat, addr: nat, len: nat)
    requires page > 0 && addr % page == 0
    ensures AllCopied(page, addr, len) <==> page <= 255 || len <= 255
    decreases len
  {
    if len > 0 {
      var n := ChunkLength(page, addr, len);
      ChunkFits(page, addr, len);
      CopyEndsExactly(n);
      if n < len {
        NextPage(page, addr, n);
        AlignedCopied(page, addr + n, len - n);
      }
    }
  }

  /** A write ends if and only if its first chunk is at most 255 bytes long and the rest is, or pages are: on chips with
      larger pages a longer chunk is copied for ever. */
  lemma AllCopiedExactly(page: nat, addr: nat, len: nat)
    requires page > 0
    ensures var first := ChunkLength(page, addr, len);
            AllCopied(page, addr, len) <==> first <= 255 && (page <= 255 || len - first <= 255)
  {
    var first := ChunkLength(page, addr, len);
    ChunkFits(page, addr, len);
    CopyEndsExactly(first);
    if first < len {
      NextPage(page, addr, first);
      AlignedCopied(page, addr + first, len - first);
    }
  }

  // ---------------------------------------------------------------- page writes against linear writes

  /** A page write that does not run over the end of its page is a linear write. */
  lemma {:induction false} PageWriteIsLinear(chip: Chip, page: nat, mem: seq<Byte>, addr: nat, data: seq<Byte>)
    requires page > 0 && addr % page + |data| <= page
    ensures PageWrite(chip, page, mem, addr, data) == LinearWrite(chip, mem, addr, data)
    decreases |data|
  {
    if data != [] {
      var k := |data| - 1;
      PageWriteIsLinear(chip, page, mem, addr, data[..k]);
      PageLeftIsMod(page, addr);
    }
  }

  lemma LinearConcat(chip: Chip, mem: seq<Byte>, addr: nat, d1: seq<Byte>, d2: seq<Byte>)
    ensures LinearWrite(chip, LinearWrite(chip, mem, addr, d1), addr + |d1|, d2) == LinearWrite(chip, mem, addr, d1 + d2)
  {
  }

  /** Writing the next `n` bytes after the first `done` is writing the first `done + n`. */
  lemma LinearMore(chip: Chip, mem: seq<Byte>, addr: nat, buf: seq<Byte>, done: nat, n: nat)
    requires done + n <= |buf|
    ensures LinearWrite(chip, LinearWrite(chip, mem, addr, buf[..done]), addr + done, buf[done..done + n])
         == LinearWrite(chip, mem, addr, buf[..done + n])
  {
    LinearConcat(chip, mem, addr, buf[..done], buf[done..done + n]);
    assert buf[..done] + buf[done..done + n] == buf[..done + n];
  }

  lemma LinearNothing(chip: Chip, mem: seq<Byte>, addr: nat)
    ensures LinearWrite(chip, mem, addr, []) == mem
  {
  }

  /** The first byte past the end of a page lands on the first byte of that same page, which is why a
      write must be split where pages end. */
  lemma CellWraps(page: nat, addr: nat)
    requires page > 0
    ensures Cell(page, addr, page - addr % page) == addr - addr % page
  {
    PageLeftIsMod(page, addr);
  }

  /** After a write, reading the range gives what was written, on flash with only those bits set that were set before
      as well, and reading anywhere else gives what was there. */
  lemma ReadsBack(chip: Chip, mem: seq<Byte>, addr: nat, data: seq<Byte>, a: nat)
    requires addr + |data| <= |mem| && a < |mem|
    ensures var r := LinearWrite(chip, mem, addr, data);
            && (chip.Eeprom? ==> r[addr..addr + |data|] == data)
            && (addr <= a < addr + |data| && mem[a] == 0xFF ==> r[a] == data[a - addr])
            && (chip.Flash? && addr <= a < addr + |data| ==>
                  forall i: nat :: Bitwise.Bit(r[a], i) <==> Bitwise.Bit(mem[a], i) && Bitwise.Bit(data[a - addr], i))
            && (!(addr <= a < addr + |data|) ==> r[a] == mem[a])
  {
    if addr <= a < addr + |data| {
      ErasedTakes(data[a - addr]);
      forall i: nat
        ensures Bitwise.Bit(Bitwise.And(mem[a], data[a - addr]), i)
           <==> Bitwise.Bit(mem[a], i) && Bitwise.Bit(data[a - addr], i)
      {
        Bitwise.BitAnd(mem[a], data[a - addr], i);
      }
    }
  }

  /** An erased flash byte takes any value. */
  lemma ErasedTakes(b: Byte)
    ensures Bitwise.And(0xFF, b) == b
  {
    assert Bitwise.Mask(8) == 256;
    Bitwise.AndOnes(b, 8);
  }

  // ---------------------------------------------------------------- writes that are cut short

  /** The steps that must succeed before a chunk is sent: waiting for the chip, starting the bus for the
      write-enable, and starting it for the write. */
  datatype Step = Wait | Enable | Start

  /** The first step that fails, if any does; the driver goes no further. */
  datatype Bus = Reliable | FailsAt(chunk: nat, step: Step) {
    predicate Fails(j: nat) {
      FailsAt? && j == chunk
    }
  }

  /** The chip's memory, and how much of the data has been written. */
  datatype Written = Written(mem: seq<Byte>, done: nat)

  /** What the driver's loop makes of the chip from byte `done` and chunk `j` on: one chunk, inside one page,
      after the other, up to the first that fails. */
  function WriteChunks(chip: Chip, page: nat, mem: seq<Byte>, addr: nat, buf: seq<Byte>, done: nat, bus: Bus, j: nat)
    : (w: Written)
    requires page > 0 && done <= |buf|
    ensures |w.mem| == |mem| && done <= w.done <= |buf|
    decreases |buf| - done
  {
    if done == |buf| || bus.Fails(j) then Written(mem, done)
    else
      var n := ChunkLength(page, addr + done, |buf| - done);
      WriteChunks(chip, page, LinearWrite(chip, mem, addr + done, buf[done..done + n]), addr, buf, done + n, bus, j + 1)
  }

  lemma ChunkStep(chip: Chip, page: nat, mem: seq<Byte>, addr: nat, buf: seq<Byte>, done: nat, bus: Bus, j: nat, n: nat)
    requires page > 0 && done < |buf| && n == ChunkLength(page, addr + done, |buf| - done)
    ensures WriteChunks(chip, page, mem, addr, buf, done, bus, j) ==
              if bus.Fails(j) then Written(mem, done)
              else WriteChunks(chip, page, LinearWrite(chip, mem, addr + done, buf[done..done + n]),
                               addr, buf, done + n, bus, j + 1)
  {
  }

  lemma NextPage(page: nat, addr: nat, n: nat)
    requires page > 0 && addr % page + n == page
    ensures (addr + n) % page == 0
  {
    assert addr + n == (addr / page + 1) * page;
    DivMod(addr / page + 1, 0, page);
  }

  /** A write that is cut short has written whole chunks: it stops at a page boundary, or never started. */
  lemma {:induction false} CutAtPage(chip: Chip, page: nat, mem: seq<Byte>, addr: nat, buf: seq<Byte>, done: nat,
                                     bus: Bus, j: nat)
    requires page > 0 && done <= |buf|
    ensures var w := WriteChunks(chip, page, mem, addr, buf, done, bus, j);
            && (w.done == |buf| || w.done == done || (addr + w.done) % page == 0)
            && (bus.Reliable? ==> w.done == |buf|)
    decreases |buf| - done
  {
    hide LinearWrite, ChunkLength;
    if done < |buf| && !bus.Fails(j) {
      var n := ChunkLength(page, addr + done, |buf| - done);
      ChunkStep(chip, page, mem, addr, buf, done, bus, j, n);
      CutAtPage(chip, page, LinearWrite(chip, mem, addr + done, buf[done..done + n]), addr, buf, done + n, bus, j + 1);
      ChunkFits(page, addr + done, |buf| - done);
      if n < |buf| - done {
        NextPage(page, addr + done, n);
      }
    }
  }

  /** Split into pages, a write is one linear write of the part that got through. */
  lemma {:induction false} ChunksAreLinear(chip: Chip, page: nat, mem0: seq<Byte>, mem: seq<Byte>, addr: nat,
                                           buf: seq<Byte>, done: nat, bus: Bus, j: nat)
    requires page > 0 && done <= |buf|
    requires mem == LinearWrite(chip, mem0, addr, buf[..done])
    ensures var w := WriteChunks(chip, page, mem, addr, buf, done, bus, j);
            w.mem == LinearWrite(chip, mem0, addr, buf[..w.done])
    decreases |buf| - done
  {
    if done < |buf| && !bus.Fails(j) {
      var n := ChunkLength(page, addr + done, |buf| - done);
      LinearMore(chip, mem0, addr, buf, done, n);
      ChunksAreLinear(chip, page, mem0, LinearWrite(chip, mem, addr + done, buf[done..done + n]), addr,
                      buf, done + n, bus, j + 1);
    }
  }

  /** What the whole loop leaves behind. */
  function WriteAll(chip: Chip, page: nat, mem: seq<Byte>, addr: nat, buf: seq<Byte>, bus: Bus): (w: Written)
    requires page > 0
    ensures |w.mem| == |mem| && w.done <= |buf|
  {
    WriteChunks(chip, page, mem, addr, buf, 0, bus, 0)
  }

  lemma WriteAllIsLinear(chip: Chip, page: nat, mem: seq<Byte>, addr: nat, buf: seq<Byte>, bus: Bus)
    requires page > 0
    ensures var w := WriteAll(chip, page, mem, addr, buf, bus);
            && w.mem == LinearWrite(chip, mem, addr, buf[..w.done])
            && (w.done == |buf| || w.done == 0 || (addr + w.done) % page == 0)
            && (bus.Reliable? ==> w.done == |buf|)
  {
    assert buf[..0] == [];
    LinearNothing(chip, mem, addr);
    ChunksAreLinear(chip, page, mem, mem, addr, buf, 0, bus, 0);
    CutAtPage(chip, page, mem, addr, buf, 0, bus, 0);
  }

  /** The distance from `addr` to the end of the `k`-th page, counting the one that holds it as the first. */
  function Ahead(page: nat, addr: nat, k: nat): (n: nat)
    requires page > 0
  {
    if k == 0 then 0 else if k == 1 then page - addr % page else Ahead(page, addr, k - 1) + page
  }

  lemma {:induction false} AheadNext(page: nat, addr: nat, n: nat, k: nat)
    requires page > 0 && addr % page + n == page && (addr + n) % page == 0
    ensures n + Ahead(page, addr + n, k) == Ahead(page, addr, k + 1)
  {
    if k > 0 {
      AheadNext(page, addr, n, k - 1);
    }
  }

  lemma {:induction false} AheadGrows(page: nat, addr: nat, k: nat)
    requires page > 0 && k > 0
    ensures page - addr % page <= Ahead(page, addr, k)
  {
    if k > 1 {
      AheadGrows(page, addr, k - 1);
    }
  }

  lemma ChunkAhead(page: nat, addr: nat, len: nat, k: nat)
    requires page > 0 && k > 0
    ensures var n := ChunkLength(page, addr, len);
            if n == len then len <= Ahead(page, addr, k) else n + Ahead(page, addr + n, k - 1) == Ahead(page, addr, k)
  {
    var n := ChunkLength(page, addr, len);
    ChunkFits(page, addr, len);
    if n < len {
      NextPage(page, addr, n);
      AheadNext(page, addr, n, k - 1);
    } else {
      AheadGrows(page, addr, k);
    }
  }

  /** How far a write gets when chunk `j + k` fails: to the end of the `k`-th page from here, or to its own end. */
  lemma {:induction false} ReachesPageEnd(chip: Chip, page: nat, mem: seq<Byte>, addr: nat, buf: seq<Byte>, done: nat,
                                          bus: Bus, j: nat, k: nat)
    requires page > 0 && done <= |buf| && bus.FailsAt? && bus.chunk == j + k
    ensures var end := Ahead(page, addr + done, k);
            WriteChunks(chip, page, mem, addr, buf, done, bus, j).done == if |buf| - done <= end then |buf| else done + end
    decreases |buf| - done
  {
    hide LinearWrite, ChunkLength, Ahead;
    if done == |buf| {
    } else if k == 0 {
      AheadNone(page, addr + done);
    } else {
      var n := ChunkLength(page, addr + done, |buf| - done);
      ChunkStep(chip, page, mem, addr, buf, done, bus, j, n);
      var next := LinearWrite(chip, mem, addr + done, buf[done..done + n]);
      ReachesPageEnd(chip, page, next, addr, buf, done + n, bus, j + 1, k - 1);
      ChunkAhead(page, addr + done, |buf| - done, k);
      assert addr + done + n == addr + (done + n);
    }
  }

  lemma AheadNone(page: nat, addr: nat)
    requires page > 0
    ensures Ahead(page, addr, 0) == 0
  {
  }

  /** A write whose chunk `bus.chunk` fails has written exactly the chunks before it: nothing, or all that lies before the
      end of as many pages, counted from the page it starts in. */
  lemma CutExactly(chip: Chip, page: nat, mem: seq<Byte>, addr: nat, buf: seq<Byte>, bus: Bus)
    requires page > 0 && bus.FailsAt?
    ensures var end := Ahead(page, addr, bus.chunk);
            WriteAll(chip, page, mem, addr, buf, bus).done == if |buf| <= end then |buf| else end
  {
    ReachesPageEnd(chip, page, mem, addr, buf, 0, bus, 0, bus.chunk);
  }
}
