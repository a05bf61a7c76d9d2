/** The block drivers of drivers/eeprom/eeprom_i2c.c, drivers/eeprom/eeprom_spi.c and
    drivers/flash/flash_spi.c, against chips that wrap page writes, are busy after each write, and (on
    SPI) ignore writes that were not enabled. */
module Paged {
  import opened Bytes
  import opened Division
  import opened PagedModel

  /** A chip on a bus. */
  class Device {
    const chip: Chip
    const page: nat
    const addressSize: nat
    const mem: array<Byte>
    var busy: bool
    var enabled: bool
    ghost var log: seq<Transaction>

    /** The chip's addresses fit its address bytes. */
    predicate Addressable() {
      page > 0 && mem.Length <= Power256(addressSize)
    }

    predicate Fits(addr: nat, len: nat) {
      Addressable() && addr + len <= mem.Length
    }

    constructor (chip: Chip, page: nat, addressSize: nat, size: nat)
      ensures this.chip == chip && this.page == page && this.addressSize == addressSize
      ensures fresh(mem) && mem.Length == size && !busy && !enabled && log == []
    {
      this.chip, this.page, this.addressSize := chip, page, addressSize;
      mem := new Byte[size](_ => 0xFF);
      busy, enabled, log := false, false, [];
    }

    /** Programs one page; a busy chip ignores it. */
    method Program(addr: nat, data: seq<Byte>)
      requires page > 0
      modifies mem, this`busy, this`log
      ensures busy && log == old(log) + [Transaction(addr, |data|)]
      ensures mem[..] == if old(busy) then old(mem[..]) else PageWrite(chip, page, old(mem[..]), addr, data)
    {
      if !busy {
        ghost var before := mem[..];
        for k := 0 to |data|
          invariant log == old(log) && mem[..] == PageWrite(chip, page, before, addr, data[..k])
        {
          var c := Cell(page, addr, k);
          assert data[..k + 1][..k] == data[..k];
          if c < mem.Length {
            mem[c] := Combine(chip, mem[c], data[k]);
          }
        }
        assert data[..|data|] == data;
      }
      busy := true;
      log := log + [Transaction(addr, |data|)];
    }

    /** The write-in-progress time has passed. */
    method Settle()
      modifies this`busy
      ensures !busy
    {
      busy := false;
    }

    /** An I2C packet: address bytes, then data. */
    method Packet(packet: seq<Byte>)
      requires page > 0 && addressSize <= |packet|
      modifies mem, this`busy, this`log
      ensures var addr := FromAddressBytes(packet[..addressSize]);
              var data := packet[addressSize..];
              && busy && log == old(log) + [Transaction(addr, |data|)]
              && mem[..] == if old(busy) then old(mem[..]) else PageWrite(chip, page, old(mem[..]), addr, data)
    {
      Program(FromAddressBytes(packet[..addressSize]), packet[addressSize..]);
    }

    /** WREN. */
    method Enable()
      modifies this`enabled
      ensures enabled == (old(enabled) || !busy)
    {
      enabled := enabled || !busy;
    }

    /** WRDI. */
    method Disable()
      modifies this`enabled
      ensures !enabled || busy
    {
      if !busy {
        enabled := false;
      }
    }

    /** An SPI write command: address bytes, then data. Ignored unless enabled; uses up the enable latch. */
    method SpiWrite(address: seq<Byte>, data: seq<Byte>)
      requires page > 0
      modifies mem, this`busy, this`enabled, this`log
      ensures var addr := FromAddressBytes(address);
              if old(busy) || !old(enabled) then
                mem[..] == old(mem[..]) && busy == old(busy) && enabled == old(enabled) && log == old(log)
              else
                && busy && !enabled && log == old(log) + [Transaction(addr, |data|)]
                && mem[..] == PageWrite(chip, page, old(mem[..]), addr, data)
    {
      if !busy && enabled {
        Program(FromAddressBytes(address), data);
        enabled := false;
      }
    }

    /** A sequential read; what a busy chip answers is not known. */
    method Read(address: seq<Byte>, len: nat) returns (data: seq<Byte>)
      requires FromAddressBytes(address) + len <= mem.Length
      ensures |data| == len
      ensures !busy ==> data == mem[FromAddressBytes(address)..FromAddressBytes(address) + len]
    {
      if busy {
        return seq(len, _ => 0xFF);
      }
      var addr := FromAddressBytes(address);
      data := mem[addr..addr + len];
    }
  }

  /** `fill_target_address` and `spi_eeprom_transmit_address`: the address bytes, least significant last. */
  method FillTargetAddress(buffer: array<Byte>, addr: nat, size: nat)
    requires size <= buffer.Length
    modifies buffer
    ensures buffer[..size] == AddressBytes(addr, size)
    ensures buffer[size..] == old(buffer[size..])
  {
    var p := addr;
    for i := 0 to size
      invariant AddressBytes(addr, size) == AddressBytes(p, size - i) + buffer[size - i..size]
      invariant buffer[size..] == old(buffer[size..])
    {
      ghost var rest := buffer[size - i..size];
      buffer[size - 1 - i] := p % 256;
      assert buffer[size - (i + 1)..size] == [p % 256] + rest;
      p := p / 256;
    }
    assert buffer[0..size] == buffer[..size];
  }

  /** The page arithmetic at the top of every loop. */
  method NextLength(page: nat, target: nat, len: nat) returns (writeLength: nat)
    requires page > 0
    ensures writeLength == ChunkLength(page, target, len) && writeLength <= PageLeft(page, target)
  {
    ChunkFits(page, target, len);
    var pageOffset := target % page;
    writeLength := page - pageOffset;
    if writeLength > len {
      writeLength := len;
    }
  }

  ghost predicate AllInOnePage(page: nat, log: seq<Transaction>, from: nat)
    requires page > 0
  {
    forall k :: from <= k < |log| ==> InOnePage(page, log[k])
  }

  /** The address bytes of an address that the chip has. */
  lemma AddressFits(d: Device, addr: nat)
    requires addr < d.mem.Length <= Power256(d.addressSize)
    ensures FromAddressBytes(AddressBytes(addr, d.addressSize)) == addr
  {
    AddressRoundTrip(addr, d.addressSize);
  }

  // ---------------------------------------------------------------- I2C EEPROM

  /** The address bytes and the chunk, side by side in the packet buffer. The copying loop counts in uint8_t. */
  method FillPacket(packet: array<Byte>, target: nat, size: nat, chunk: seq<Byte>)
    requires size + |chunk| <= packet.Length && CopyEnds(|chunk|)
    modifies packet
    ensures packet[..size + |chunk|] == AddressBytes(target, size) + chunk
  {
    FillTargetAddress(packet, target, size);
    CopyEndsExactly(|chunk|);
    var i := 0;
    while i < |chunk|
      invariant 0 <= i <= |chunk| && packet[..size + i] == AddressBytes(target, size) + chunk[..i]
    {
      packet[size + i] := chunk[i];
      assert packet[..size + (i + 1)] == packet[..size + i] + [chunk[i]];
      i := (i + 1) % 256;
    }
  }

  /** One turn of the loop: a packet with the address and a chunk that stays in its page. */
  method I2cWriteChunk(d: Device, packet: array<Byte>, chunk: seq<Byte>, target: nat)
    requires d.Addressable() && target < d.mem.Length && !d.busy && packet != d.mem && CopyEnds(|chunk|)
    requires |chunk| <= PageLeft(d.page, target) && d.addressSize + |chunk| <= packet.Length
    modifies d.mem, d`busy, d`log, packet
    ensures !d.busy && d.mem[..] == LinearWrite(d.chip, old(d.mem[..]), target, chunk)
    ensures d.log == old(d.log) + [Transaction(target, |chunk|)] && InOnePage(d.page, Transaction(target, |chunk|))
  {
    PageLeftIsMod(d.page, target);
    FillPacket(packet, target, d.addressSize, chunk);
    var bytes := packet[..d.addressSize + |chunk|];
    assert bytes[..d.addressSize] == AddressBytes(target, d.addressSize) && bytes[d.addressSize..] == chunk;
    AddressFits(d, target);
    PageWriteIsLinear(d.chip, d.page, d.mem[..], target, chunk);
    assert d.mem[..] == old(d.mem[..]);
    d.Packet(bytes);
    d.Settle();
  }

  /** The range lies on the chip, or at least begins there and stays in its page. */
  predicate OnChip(d: Device, addr: nat, len: nat) {
    d.Addressable() && (addr + len <= d.mem.Length || (addr < d.mem.Length && addr % d.page + len <= d.page))
  }

  /** What is left of a write can be done: `len` bytes at `target`. */
  ghost predicate Writable(d: Device, target: nat, len: nat) {
    d.Addressable() && (len > 0 ==> OnChip(d, target, len)) && AllCopied(d.page, target, len)
  }

  /** One turn of the loop: the length of the chunk, and the chunk. */
  method I2cTurn(d: Device, packet: array<Byte>, buf: seq<Byte>, done: nat, target: nat) returns (writeLength: nat)
    requires done < |buf| && Writable(d, target, |buf| - done) && !d.busy && packet != d.mem
    requires packet.Length == d.addressSize + d.page
    modifies d.mem, d`busy, d`log, packet
    ensures 0 < writeLength <= |buf| - done && Writable(d, target + writeLength, |buf| - done - writeLength) && !d.busy
    ensures d.mem[..] == LinearWrite(d.chip, old(d.mem[..]), target, buf[done..done + writeLength])
    ensures d.log == old(d.log) + [Transaction(target, writeLength)] && InOnePage(d.page, Transaction(target, writeLength))
  {
    writeLength := NextLength(d.page, target, |buf| - done);
    OnChipNext(d, target, |buf| - done, writeLength);
    I2cWriteChunk(d, packet, buf[done..done + writeLength], target);
  }

  /** `eeprom_write_block` over I2C, whenever it ends at all: when every chunk can be copied. */
  method I2cWriteBlock(d: Device, buf: seq<Byte>, addr: nat)
    requires OnChip(d, addr, |buf|) && !d.busy && AllCopied(d.page, addr, |buf|)
    modifies d.mem, d`busy, d`log
    ensures !d.busy && d.mem[..] == LinearWrite(d.chip, old(d.mem[..]), addr, buf)
    ensures |old(d.log)| <= |d.log| && AllInOnePage(d.page, d.log, |old(d.log)|)
  {
    var packet := new Byte[d.addressSize + d.page](_ => 0);
    var done: nat, target: nat, len: nat := 0, addr, |buf|;
    ghost var before := d.mem[..];
    LinearNothing(d.chip, before, addr);
    assert buf[..0] == [] && Writable(d, target, len);
    hide LinearWrite, Writable, InOnePage;
    while len > 0
      invariant done + len == |buf| && target == addr + done && !d.busy && Writable(d, target, len)
      invariant d.mem[..] == LinearWrite(d.chip, before, addr, buf[..done])
      invariant |old(d.log)| <= |d.log| && AllInOnePage(d.page, d.log, |old(d.log)|)
      decreases len
    {
      var writeLength := I2cTurn(d, packet, buf, done, target);
      LinearMore(d.chip, before, addr, buf, done, writeLength);
      done, target, len := done + writeLength, target + writeLength, len - writeLength;
    }
    assert buf[..done] == buf;
  }

  lemma OnChipNext(d: Device, target: nat, len: nat, n: nat)
    requires OnChip(d, target, len) && len > 0 && n == ChunkLength(d.page, target, len)
    ensures target < d.mem.Length && (OnChip(d, target + n, len - n) || n == len)
  {
    ChunkFits(d.page, target, len);
  }

  /** `eeprom_read_block` over I2C, from an idle chip. */
  method I2cReadBlock(d: Device, addr: nat, len: nat) returns (data: seq<Byte>)
    requires d.Fits(addr, len) && addr < d.mem.Length && !d.busy
    ensures data == d.mem[addr..addr + len]
  {
    var packet := new Byte[d.addressSize](_ => 0);
    FillTargetAddress(packet, addr, d.addressSize);
    assert packet[..d.addressSize] == packet[..];
    AddressFits(d, addr);
    data := d.Read(packet[..], len);
  }

  /** What a caller sees: a range written over I2C reads back, and nothing else has changed. */
  method I2cWriteThenRead(d: Device, buf: seq<Byte>, addr: nat) returns (data: seq<Byte>)
    requires d.Fits(addr, |buf|) && addr < d.mem.Length && !d.busy && d.chip.Eeprom? && AllCopied(d.page, addr, |buf|)
    modifies d.mem, d`busy, d`log
    ensures data == buf
    ensures d.mem[..addr] == old(d.mem[..addr]) && d.mem[addr + |buf|..] == old(d.mem[addr + |buf|..])
  {
    ghost var before := d.mem[..];
    I2cWriteBlock(d, buf, addr);
    WrittenRange(d.chip, before, addr, buf);
    data := I2cReadBlock(d, addr, |buf|);
  }

  lemma WrittenRange(chip: Chip, mem: seq<Byte>, addr: nat, buf: seq<Byte>)
    requires addr + |buf| <= |mem|
    requires chip.Eeprom? || forall a :: addr <= a < addr + |buf| ==> mem[a] == 0xFF
    ensures var r := LinearWrite(chip, mem, addr, buf);
            r[addr..addr + |buf|] == buf && r[..addr] == mem[..addr] && r[addr + |buf|..] == mem[addr + |buf|..]
  {
    var r := LinearWrite(chip, mem, addr, buf);
    forall a | addr <= a < addr + |buf| ensures r[a] == buf[a - addr] {
      ReadsBack(chip, mem, addr, buf, a);
    }
  }

  /** `eeprom_driver_erase`: zeros, page by page; a last page that is not whole is written as far as the chip goes. Each
      call writes a whole page, so it ends for the pages that can be copied. */
  method I2cErase(d: Device)
    requires d.Addressable() && CopyEnds(d.page) && !d.busy && d.chip.Eeprom?
    modifies d.mem, d`busy, d`log
    ensures forall a :: 0 <= a < d.mem.Length ==> d.mem[a] == 0
  {
    var buf := seq(d.page, _ => 0 as Byte);
    var addr: nat := 0;
    while addr < d.mem.Length
      invariant addr % d.page == 0 && !d.busy
      invariant forall a :: 0 <= a < d.mem.Length && a < addr ==> d.mem[a] == 0
      decreases d.mem.Length - addr
    {
      WholePage(d.page, addr);
      ghost var before := d.mem[..];
      I2cWriteBlock(d, buf, addr);
      assert d.mem[..] == LinearWrite(d.chip, before, addr, buf);
      addr := addr + d.page;
    }
  }

  lemma WholePage(page: nat, addr: nat)
    requires page > 0 && addr % page == 0
    ensures (addr + page) % page == 0 && (CopyEnds(page) ==> AllCopied(page, addr, page))
  {
    assert addr + page == (addr / page + 1) * page;
    DivMod(addr / page + 1, 0, page);
    ChunkFits(page, addr, page);
  }

  // ---------------------------------------------------------------- SPI EEPROM and flash

  datatype Status = Success | Error

  /** One turn of the loop: wait, enable, write. */
  method SpiWriteChunk(d: Device, bus: Bus, j: nat, chunk: seq<Byte>, target: nat) returns (status: Status)
    requires d.Fits(target, |chunk|) && target < d.mem.Length && |chunk| <= PageLeft(d.page, target)
    modifies d.mem, d`busy, d`enabled, d`log
    ensures status.Success? <==> !bus.Fails(j)
    ensures d.mem[..] == if status.Success? then LinearWrite(d.chip, old(d.mem[..]), target, chunk) else old(d.mem[..])
    ensures d.log == if status.Success? then old(d.log) + [Transaction(target, |chunk|)] else old(d.log)
    ensures InOnePage(d.page, Transaction(target, |chunk|))
  {
    PageLeftIsMod(d.page, target);
    // Wait for the write-in-progress bit to be cleared.
    if bus.Fails(j) && bus.step.Wait? {
      return Error;
    }
    d.Settle();
    // Enable writes.
    if bus.Fails(j) && bus.step.Enable? {
      return Error;
    }
    d.Enable();
    // Perform the write.
    if bus.Fails(j) && bus.step.Start? {
      return Error;
    }
    var address := new Byte[d.addressSize](_ => 0);
    FillTargetAddress(address, target, d.addressSize);
    assert address[..d.addressSize] == address[..];
    AddressFits(d, target);
    PageWriteIsLinear(d.chip, d.page, d.mem[..], target, chunk);
    d.SpiWrite(address[..], chunk);
    return Success;
  }

  /** One turn of the loop: the length of the chunk, and the chunk. */
  method SpiTurn(d: Device, bus: Bus, buf: seq<Byte>, addr: nat, done: nat, j: nat) returns (status: Status, writeLength: nat)
    requires d.Fits(addr, |buf|) && done < |buf|
    modifies d.mem, d`busy, d`enabled, d`log
    ensures 0 < writeLength <= |buf| - done
    ensures WriteChunks(d.chip, d.page, old(d.mem[..]), addr, buf, done, bus, j) ==
              if status.Error? then Written(d.mem[..], done)
              else WriteChunks(d.chip, d.page, d.mem[..], addr, buf, done + writeLength, bus, j + 1)
    ensures d.log == old(d.log) || (|d.log| == |old(d.log)| + 1 && old(d.log) <= d.log
                                    && InOnePage(d.page, d.log[|old(d.log)|]))
  {
    writeLength := NextLength(d.page, addr + done, |buf| - done);
    ChunkStep(d.chip, d.page, d.mem[..], addr, buf, done, bus, j, writeLength);
    status := SpiWriteChunk(d, bus, j, buf[done..done + writeLength], addr + done);
  }

  /** The loop of `eeprom_write_block` over SPI and of `flash_write_range`. A failing step ends it. */
  method SpiWriteChunks(d: Device, bus: Bus, buf: seq<Byte>, addr: nat) returns (status: Status)
    requires d.Fits(addr, |buf|)
    modifies d.mem, d`busy, d`enabled, d`log
    ensures var w := WriteAll(d.chip, d.page, old(d.mem[..]), addr, buf, bus);
            d.mem[..] == w.mem && (status.Success? <==> w.done == |buf|)
    ensures |old(d.log)| <= |d.log| && AllInOnePage(d.page, d.log, |old(d.log)|)
  {
    var done: nat, j: nat := 0, 0;
    ghost var final := WriteAll(d.chip, d.page, d.mem[..], addr, buf, bus);
    while done < |buf|
      invariant done <= |buf|
      invariant WriteChunks(d.chip, d.page, d.mem[..], addr, buf, done, bus, j) == final
      invariant |old(d.log)| <= |d.log| && AllInOnePage(d.page, d.log, |old(d.log)|)
      decreases |buf| - done
    {
      var writeLength;
      status, writeLength := SpiTurn(d, bus, buf, addr, done, j);
      if status.Error? {
        return Error;
      }
      done, j := done + writeLength, j + 1;
    }
    return Success;
  }

  /** `eeprom_write_block` over SPI; `disableStarts` tells whether the bus starts for the write-disable. */
  method SpiWriteBlock(d: Device, bus: Bus, buf: seq<Byte>, addr: nat, disableStarts: bool)
    requires d.Fits(addr, |buf|)
    modifies d.mem, d`busy, d`enabled, d`log
    ensures var n := WriteAll(d.chip, d.page, old(d.mem[..]), addr, buf, bus).done;
            && d.mem[..] == LinearWrite(d.chip, old(d.mem[..]), addr, buf[..n])
            && (n == |buf| || n == 0 || (addr + n) % d.page == 0)
            && (bus.Reliable? ==> n == |buf|)
    ensures |old(d.log)| <= |d.log| && AllInOnePage(d.page, d.log, |old(d.log)|)
  {
    WriteAllIsLinear(d.chip, d.page, d.mem[..], addr, buf, bus);
    var status := SpiWriteChunks(d, bus, buf, addr);
    if status.Success? && disableStarts {
      d.Disable();
    }
  }

  /** `flash_write_range`; `settles` and `disableStarts` tell how its last two steps go. */
  method FlashWriteRange(d: Device, bus: Bus, buf: seq<Byte>, addr: nat, settles: bool, disableStarts: bool)
    returns (status: Status)
    requires d.Fits(addr, |buf|)
    modifies d.mem, d`busy, d`enabled, d`log
    ensures var n := WriteAll(d.chip, d.page, old(d.mem[..]), addr, buf, bus).done;
            && d.mem[..] == LinearWrite(d.chip, old(d.mem[..]), addr, buf[..n])
            && (n == |buf| || n == 0 || (addr + n) % d.page == 0)
            && (status.Success? <==> n == |buf| && settles && disableStarts)
    ensures status.Success? ==> !d.busy && !d.enabled
    ensures |old(d.log)| <= |d.log| && AllInOnePage(d.page, d.log, |old(d.log)|)
  {
    WriteAllIsLinear(d.chip, d.page, d.mem[..], addr, buf, bus);
    status := SpiWriteChunks(d, bus, buf, addr);
    if status.Error? || !settles {
      return Error;
    }
    d.Settle();
    if !disableStarts {
      return Error;
    }
    d.Disable();
    return Success;
  }

  /** `eeprom_read_block` over SPI and `flash_read_range`: zeros when the chip cannot be reached. */
  method SpiReadBlock(d: Device, settles: bool, starts: bool, addr: nat, len: nat) returns (data: seq<Byte>)
    requires d.Fits(addr, len) && addr < d.mem.Length
    modifies d`busy
    ensures data == if settles && starts then d.mem[addr..addr + len] else seq(len, _ => 0)
  {
    if !settles {
      return seq(len, _ => 0);
    }
    d.Settle();
    if !starts {
      return seq(len, _ => 0);
    }
    var address := new Byte[d.addressSize](_ => 0);
    FillTargetAddress(address, addr, d.addressSize);
    assert address[..d.addressSize] == address[..];
    AddressFits(d, addr);
    data := d.Read(address[..], len);
  }

  /** What a caller sees: a range written over SPI reads back, on flash if it was erased, and nothing else has changed. */
  method SpiWriteThenRead(d: Device, buf: seq<Byte>, addr: nat) returns (data: seq<Byte>)
    requires d.Fits(addr, |buf|) && addr < d.mem.Length
    requires d.chip.Eeprom? || forall a :: addr <= a < addr + |buf| ==> d.mem[a] == 0xFF
    modifies d.mem, d`busy, d`enabled, d`log
    ensures data == buf
    ensures d.mem[..addr] == old(d.mem[..addr]) && d.mem[addr + |buf|..] == old(d.mem[addr + |buf|..])
  {
    ghost var before := d.mem[..];
    SpiWriteBlock(d, Reliable, buf, addr, true);
    assert buf[..|buf|] == buf;
    WrittenRange(d.chip, before, addr, buf);
    data := SpiReadBlock(d, true, true, addr, |buf|);
  }
}
