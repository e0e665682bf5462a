/** The flasher's SPI routines: every byte goes through the FAR register, and the flash is a
    fault-free `NorFlash.Chip`. */
module Flasher {
  import opened Bytes
  import opened NorFlash
  import opened FlashImage

  const ENOMEM := 12
  const ENODEV := 19
  const EINVAL := 22

  const ID_M25P128 := 0x202018
  const ID_MT25QL128 := 0x20BA18

  const BITSTREAM_BASE: Address := 0x100000
  const SDB_BASE: Address := 0x600000

  const SDB_MAGIC: seq<Byte> := [0x53, 0x44, 0x42, 0x2d]

  const SDB_HEADER: seq<Byte> := SDB_MAGIC + [
    0x00, 0x03, 0x01, 0x01, 0x00, 0x00, 0x00, 0x00,
    0x00, 0x60, 0x00, 0x00, 0x00, 0x00, 0x00, 0x00, 0x00, 0x60, 0x00, 0xc0,
    0x00, 0x00, 0x00, 0x00, 0x00, 0x00, 0xce, 0x42, 0x00, 0x00, 0x5f, 0xec,
    0x00, 0x00, 0x00, 0x01, 0x00, 0x00, 0x00, 0x00, 0x2e, 0x20, 0x20, 0x20,
    0x20, 0x20, 0x20, 0x20, 0x20, 0x20, 0x20, 0x20, 0x20, 0x20, 0x20, 0x20,
    0x20, 0x20, 0x20, 0x00, 0x00, 0x00, 0x00, 0x00, 0x00, 0x00, 0x00, 0x04,
    0x00, 0x00, 0x00, 0x00, 0x00, 0x10, 0x00, 0x00, 0x00, 0x00, 0x00, 0x00,
    0x00, 0x2c, 0x13, 0xe9, 0x46, 0x69, 0x6c, 0x65, 0x44, 0x61, 0x74, 0x61,
    0x61, 0x66, 0x70, 0x67, 0x00, 0x00, 0x00, 0x01, 0x00, 0x00, 0x00, 0x00,
    0x61, 0x66, 0x70, 0x67, 0x61, 0x2e, 0x62, 0x69, 0x6e, 0x20, 0x20, 0x20,
    0x20, 0x20, 0x20, 0x20, 0x20, 0x20, 0x20, 0x01, 0x00, 0x00, 0x00, 0x00,
    0x00, 0x00, 0x00, 0x04, 0x00, 0x00, 0x00, 0x00, 0x00, 0x00, 0x00, 0x00,
    0x00, 0x00, 0x00, 0x00, 0x00, 0x05, 0x33, 0x93, 0x46, 0x69, 0x6c, 0x65,
    0x44, 0x61, 0x74, 0x61, 0x62, 0x6f, 0x6f, 0x74, 0x00, 0x00, 0x00, 0x01,
    0x00, 0x00, 0x00, 0x00, 0x62, 0x6f, 0x6f, 0x74, 0x6c, 0x64, 0x72, 0x2e,
    0x62, 0x69, 0x6e, 0x20, 0x20, 0x20, 0x20, 0x20, 0x20, 0x20, 0x20, 0x01
  ]

  /** The chip is idle and deselected, and its identity fits its geometry. */
  predicate Ready(c: Chip) {
    && c.busy == 0 && c.rx == [] && c.id < 0x1000000
    && KnownSectorSize(c.sectorSize)
    && (c.id == ID_M25P128 ==> c.sectorSize == 0x40000)
    && (c.id == ID_MT25QL128 ==> c.sectorSize == 0x10000)
  }

  /** Ready but for chip select: as deselected as after power-up, or in the middle of the fast
      read a flash boot leaves behind. */
  predicate Usable(c: Chip) {
    Ready(c.(rx := [])) && (c.rx != [] ==> c.rx[0] == FAST_READ)
  }

  lemma DeselectUsable(c: Chip, time: nat)
    requires Usable(c)
    ensures Deselect(c, time) == c.(rx := [])
  {
  }

  /** The three answers to RDID make up the identity, and the command leaves nothing behind. */
  lemma ReadIdReplies(c: Chip)
    requires Ready(c.(rx := []))
    ensures var b2, b1 := Reply(c.(rx := [RDID])), Reply(c.(rx := [RDID, 0xFF]));
      var b0 := Reply(c.(rx := [RDID, 0xFF, 0xFF]));
      (b2 as int) * 65536 + (b1 as int) * 256 + b0 == c.id
    ensures forall time: nat :: Deselect(c.(rx := [RDID, 0xFF, 0xFF, 0xFF]), time) == c.(rx := [])
  {
    IdBytes(c.id);
  }

  lemma IdBytes(id: nat)
    requires id < 0x1000000
    ensures id / 65536 % 256 * 65536 + id / 256 % 256 * 256 + id / 1 % 256 == id
  {
    assert id / 65536 == id / 256 / 256 && id / 65536 < 256;
  }

  /** How many bytes the page loop writes: whole pages as soon as there is more than one page. */
  function Span(size: nat): (n: nat)
    ensures size <= n
  {
    if size > PAGE_SIZE then (size + PAGE_SIZE - 1) / PAGE_SIZE * PAGE_SIZE else size
  }

  /** The range is page-aligned, fits the flash, and the loads of the last page stay in memory;
      what that memory holds beyond `size` is arbitrary. */
  predicate Fits(addr: Address, data: seq<Byte>, size: nat) {
    && addr % PAGE_SIZE == 0 && Span(size) <= |data|
    && addr + (size + PAGE_SIZE - 1) / PAGE_SIZE * PAGE_SIZE <= FLASH_SIZE
  }

  /** An erase or program command carried out with the latch set, and waited for. */
  function AfterErase(c: Chip, addr: Address): Chip
    requires KnownSectorSize(c.sectorSize)
  {
    c.(mem := Erased(c.mem, Sector(c.sectorSize, addr), c.sectorSize),
       ops := c.ops + [Erase(Sector(c.sectorSize, addr))], wel := false)
  }

  function AfterProgram(c: Chip, addr: Address, image: seq<Byte>): Chip {
    c.(mem := Programmed(c.mem, addr, image), ops := c.ops + [Program(addr, image)], wel := false)
  }

  lemma EraseCommand(c: Chip, addr: Address, time: nat)
    requires Ready(c) && c.wel
    ensures Deselect(c.(rx := [SE] + AddressBytes(addr)), time) == AfterErase(c, addr).(busy := time)
  {
    AddressRoundTrip(addr);
    assert ([SE] + AddressBytes(addr))[1..4] == AddressBytes(addr);
  }

  lemma ProgramCommand(c: Chip, addr: Address, image: seq<Byte>, time: nat)
    requires Ready(c) && c.wel && |image| > 0
    ensures Deselect(c.(rx := [PP] + AddressBytes(addr) + image), time) == AfterProgram(c, addr, image).(busy := time)
  {
    AddressRoundTrip(addr);
    var rx := [PP] + AddressBytes(addr) + image;
    assert rx[1..4] == AddressBytes(addr) && rx[4..] == image;
  }

  class Spi {
    var chip: Chip
    /** Whether this bootloader version has an SPI master behind FAR. */
    const present: bool

    constructor (chip: Chip, present: bool)
      ensures this.chip == chip && this.present == present
    {
      this.chip, this.present := chip, present;
    }

    /** FAR with XFER but without CS: the chip is deselected and sees no byte. */
    method SpiTestPresence() returns (ready: bool)
      requires Usable(chip)
      modifies this
      ensures ready == present
      ensures chip == if present then old(chip).(rx := []) else old(chip)
    {
      ready := present;
      if present {
        DeselectUsable(chip, 0);
        chip := Deselect(chip, 0);
      }
    }

    method SpiCs(on: bool)
      requires KnownSectorSize(chip.sectorSize)
      modifies this
      ensures on ==> chip == old(chip)
      ensures !on ==> exists time: nat :: chip == Deselect(old(chip), time)
    {
      if !on {
        var time: int := *;
        chip := Deselect(chip, Max(time, 0));
      }
    }

    method SpiWrite8(data: Byte)
      modifies this
      ensures chip == Exchange(old(chip), data)
    {
      chip := Exchange(chip, data);
    }

    method SpiRead8() returns (data: Byte)
      modifies this
      ensures data == Reply(old(chip)) && chip == Exchange(old(chip), 0xFF)
    {
      data := Reply(chip);
      chip := Exchange(chip, 0xFF);
    }

    method WriteAddress(addr: Address)
      requires chip.rx != [] && chip.rx[0] != RDSR
      modifies this
      ensures chip == old(chip).(rx := old(chip).rx + AddressBytes(addr))
    {
      SpiWrite8(addr / 65536 % 256);
      SpiWrite8(addr / 256 % 256);
      SpiWrite8(addr % 256);
      assert chip.rx == old(chip).rx + AddressBytes(addr);
    }

    method FlashReadId() returns (id: nat)
      requires Usable(chip)
      modifies this
      ensures chip == old(chip).(rx := []) && id == chip.id
    {
      ghost var was := chip;
      ReadIdReplies(was);
      hide Reply, Deselect;
      SpiCs(false);
      ghost var time: nat :| chip == Deselect(was, time);
      DeselectUsable(was, time);
      SpiCs(true);
      SpiCs(true);
      SpiWrite8(RDID);
      assert chip == was.(rx := [RDID]);
      var b2 := SpiRead8();
      assert chip == was.(rx := [RDID, 0xFF]);
      var b1 := SpiRead8();
      assert chip == was.(rx := [RDID, 0xFF, 0xFF]);
      var b0 := SpiRead8();
      assert chip == was.(rx := [RDID, 0xFF, 0xFF, 0xFF]);
      id := (b2 as int) * 65536 + (b1 as int) * 256 + b0;
      SpiCs(false);
    }

    method FlashWaitCompletion()
      requires chip.rx == [] && KnownSectorSize(chip.sectorSize)
      modifies this
      ensures chip == old(chip).(busy := 0)
    {
      var notDone := true;
      while notDone
        invariant chip == old(chip).(busy := chip.busy)
        invariant !notDone ==> chip.busy == 0
        decreases notDone, chip.busy
      {
        SpiCs(true);
        SpiWrite8(RDSR);
        var stat := SpiRead8();
        notDone := stat % 2 == 1;
        SpiCs(false);
      }
    }

    method FlashEraseSector(addr: Address)
      requires Ready(chip) && chip.wel
      modifies this
      ensures chip == AfterErase(old(chip), addr)
    {
      SpiCs(true);
      SpiWrite8(SE);
      WriteAddress(addr);
      assert chip == old(chip).(rx := [SE] + AddressBytes(addr));
      SpiCs(false);
      ghost var time: nat :| chip == Deselect(old(chip).(rx := [SE] + AddressBytes(addr)), time);
      EraseCommand(old(chip), addr, time);
      FlashWaitCompletion();
    }

    method FlashWriteEnable()
      requires Ready(chip)
      modifies this
      ensures chip == old(chip).(wel := true)
    {
      SpiCs(true);
      SpiWrite8(WREN);
      SpiCs(false);
    }

    method FlashProgramPage(addr: Address, data: seq<Byte>, size: nat)
      requires Ready(chip) && chip.wel && 0 < size <= PAGE_SIZE && size <= |data|
      modifies this
      ensures chip == AfterProgram(old(chip), addr, PageImage(data[..size]))
    {
      SpiCs(true);
      SpiWrite8(PP);
      WriteAddress(addr);
      ghost var head := [PP] + AddressBytes(addr);
      ghost var image := PageImage(data[..size]);
      SendPage(data, size);
      assert chip == old(chip).(rx := head + image);
      SpiCs(false);
      ghost var time: nat :| chip == Deselect(old(chip).(rx := head + image), time);
      ProgramCommand(old(chip), addr, image, time);
      FlashWaitCompletion();
    }

    method SendPage(data: seq<Byte>, size: nat)
      requires chip.rx != [] && chip.rx[0] == PP && size <= PAGE_SIZE && size <= |data|
      modifies this
      ensures chip == old(chip).(rx := old(chip).rx + PageImage(data[..size]))
    {
      ghost var head, image := chip.rx, PageImage(data[..size]);
      var i := 0;
      while i < size
        invariant 0 <= i <= size && chip == old(chip).(rx := head + image[..i])
      {
        SpiWrite8(data[i]);
        i := i + 1;
      }
      while i < PAGE_SIZE
        invariant size <= i <= PAGE_SIZE && chip == old(chip).(rx := head + image[..i])
      {
        SpiWrite8(0xFF);
        i := i + 1;
      }
      assert image[..PAGE_SIZE] == image;
    }
  }
}
