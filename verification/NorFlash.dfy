/** The SPI NOR flash (M25P128 or MT25QL128) at the level of bytes exchanged while selected.
    Commands take effect when the chip is deselected; writing needs the write-enable latch. */
module NorFlash {
  import opened Bytes

  const FLASH_SIZE := 0x1000000
  const PAGE_SIZE := 256

  const WREN: Byte := 0x06
  const RDID: Byte := 0x9F
  const RDSR: Byte := 0x05
  const READ: Byte := 0x03
  const FAST_READ: Byte := 0x0B
  const PP: Byte := 0x02
  const SE: Byte := 0xD8

  type Image = m: seq<Byte> | |m| == FLASH_SIZE witness seq(FLASH_SIZE, _ => 0)
  type Address = a: int | 0 <= a < FLASH_SIZE

  datatype Op = Erase(sector: nat) | Program(addr: Address, data: seq<Byte>)

  datatype Chip = Chip(
    mem: Image, id: nat, sectorSize: nat,
    wel: bool,          // write-enable latch
    busy: nat,          // status reads until the operation in progress is over
    rx: seq<Byte>,      // bytes received since the chip was selected
    ops: seq<Op>,       // erase and program operations carried out
    ignored: nat)       // erase and program commands refused

  /** The two supported chips. */
  predicate KnownSectorSize(ss: nat) { ss == 0x40000 || ss == 0x10000 }

  /** The sector an address lies in. */
  function Sector(ss: nat, p: nat): nat
    requires KnownSectorSize(ss)
  {
    if ss == 0x40000 then p / 0x40000 else p / 0x10000
  }

  function AddressBytes(a: Address): seq<Byte> {
    [a / 65536, a / 256 % 256, a % 256]
  }

  function Address24(b: seq<Byte>): Address
    requires |b| >= 3
  {
    (b[0] as int) * 65536 + (b[1] as int) * 256 + b[2]
  }

  lemma AddressRoundTrip(a: Address)
    ensures Address24(AddressBytes(a)) == a
  {
  }

  /** What the chip shifts out while the next byte is shifted in. */
  function Reply(c: Chip): Byte {
    if c.rx == [] then 0xFF
    else if c.rx[0] == RDSR then (if c.busy > 0 then 1 else 0) + if c.wel then 2 else 0
    else if c.busy > 0 then 0xFF
    else if c.rx[0] == RDID && |c.rx| <= 3 then
      c.id / (if |c.rx| == 1 then 65536 else if |c.rx| == 2 then 256 else 1) % 256
    else if c.rx[0] == READ && |c.rx| >= 4 then c.mem[(Address24(c.rx[1..4]) + |c.rx| - 4) % FLASH_SIZE]
    else if c.rx[0] == FAST_READ && |c.rx| >= 5 then c.mem[(Address24(c.rx[1..4]) + |c.rx| - 5) % FLASH_SIZE]
    else 0xFF
  }

  /** One byte exchanged while selected. */
  function Exchange(c: Chip, b: Byte): Chip {
    c.(rx := c.rx + [b],
       busy := if c.rx != [] && c.rx[0] == RDSR && c.busy > 0 then c.busy - 1 else c.busy)
  }

  function Erased(mem: Image, sector: nat, ss: nat): Image
    requires KnownSectorSize(ss)
  {
    seq(FLASH_SIZE, p requires 0 <= p < FLASH_SIZE => if Sector(ss, p) == sector then 0xFF else mem[p])
  }

  /** The byte the page buffer holds for column `k` after `data` arrived from column `low` on,
      wrapping within the page; columns never reached stay 0xFF. */
  function Latched(low: nat, data: seq<Byte>, k: nat): Byte {
    if data == [] then 0xFF
    else
      var j := |data| - 1;
      if (low + j) % PAGE_SIZE == k then data[j] else Latched(low, data[..j], k)
  }

  /** Programming can only clear bits. */
  function Programmed(mem: Image, addr: Address, data: seq<Byte>): Image {
    seq(FLASH_SIZE, p requires 0 <= p < FLASH_SIZE =>
      if p / PAGE_SIZE == addr / PAGE_SIZE then And8(mem[p], Latched(addr % PAGE_SIZE, data, p % PAGE_SIZE))
      else mem[p])
  }

  predicate WriteCommand(c: Chip) {
    (|c.rx| == 4 && c.rx[0] == SE) || (|c.rx| >= 5 && c.rx[0] == PP)
  }

  /** Deselecting the chip ends the command; an operation then lasts for `time` status reads. */
  function Deselect(c: Chip, time: nat): Chip
    requires KnownSectorSize(c.sectorSize)
  {
    if |c.rx| == 1 && c.rx[0] == WREN && c.busy == 0 then
      c.(wel := true, rx := [])
    else if !WriteCommand(c) then
      c.(rx := [])
    else if c.busy > 0 || !c.wel then
      c.(ignored := c.ignored + 1, rx := [])
    else
      var a := Address24(c.rx[1..4]);
      var done := c.(wel := false, busy := time, rx := []);
      if c.rx[0] == SE then
        done.(mem := Erased(c.mem, Sector(c.sectorSize, a), c.sectorSize),
              ops := c.ops + [Erase(Sector(c.sectorSize, a))])
      else
        done.(mem := Programmed(c.mem, a, c.rx[4..]), ops := c.ops + [Program(a, c.rx[4..])])
  }

  lemma {:induction false} LatchedInOrder(data: seq<Byte>, k: nat)
    requires |data| <= PAGE_SIZE && k < PAGE_SIZE
    ensures Latched(0, data, k) == if k < |data| then data[k] else 0xFF
  {
    if data != [] {
      LatchedInOrder(data[..|data| - 1], k);
    }
  }

  /** Programming a whole erased page stores exactly the data. */
  lemma ProgramErasedPage(mem: Image, addr: Address, data: seq<Byte>, p: Address)
    requires addr % PAGE_SIZE == 0 && |data| == PAGE_SIZE
    requires addr <= p < addr + PAGE_SIZE ==> mem[p] == 0xFF
    ensures Programmed(mem, addr, data)[p] == if addr <= p < addr + PAGE_SIZE then data[p - addr] else mem[p]
  {
    if addr <= p < addr + PAGE_SIZE {
      assert p / PAGE_SIZE == addr / PAGE_SIZE && p % PAGE_SIZE == p - addr;
      LatchedInOrder(data, p - addr);
      ErasedAnd(data[p - addr]);
    }
  }
}
