/** `flash_program` and `program_flash`: what they leave in the flash. */
module FlashProgramming {
  import opened Bytes
  import opened NorFlash
  import opened FlashImage
  import opened Flasher

  /** Pages the loop visits and the length of each. */
  function PageLen(size: nat): nat { if size > PAGE_SIZE then PAGE_SIZE else size }

  function PageCount(size: nat): nat {
    if size > PAGE_SIZE then (size + PAGE_SIZE - 1) / PAGE_SIZE else if size > 0 then 1 else 0
  }

  lemma PagesFit(addr: Address, data: seq<Byte>, size: nat, count: nat)
    requires Fits(addr, data, size) && size > 0 && count <= PageCount(size)
    ensures Pages(addr, data, count, PageLen(size))
    ensures Offset(PageLen(size), count) <= Span(size)
    ensures count < PageCount(size) <==> Offset(PageLen(size), count) < size
    ensures count == PageCount(size) ==> Offset(PageLen(size), count) == Span(size)
  {
    if size <= PAGE_SIZE {
      assert Offset(size, 0) == 0 && Offset(size, 1) == size;
    }
  }

  /** The chip after `flash_program` of a non-empty buffer. */
  function AfterFlashProgram(c: Chip, addr: Address, data: seq<Byte>, size: nat): Chip
    requires Ready(c) && Fits(addr, data, size)
  {
    if size == 0 then c
    else
      PagesFit(addr, data, size, PageCount(size));
      c.(mem := Written(c.mem, addr, data, Span(size), c.sectorSize),
         ops := c.ops + Ops(addr, data, PageCount(size), PageLen(size), c.sectorSize),
         wel := false)
  }

  /** The chip after the first `count` pages. */
  function AfterPages(c: Chip, addr: Address, data: seq<Byte>, count: nat, len: nat): Chip
    requires Ready(c) && Pages(addr, data, count, len)
  {
    if count == 0 then c
    else
      PageOf(addr, data, count, len);
      c.(mem := Written(c.mem, addr, data, Offset(len, count), c.sectorSize),
         ops := c.ops + Ops(addr, data, count, len, c.sectorSize),
         wel := false)
  }

  /** The page loop's body: erase the sector on its first page, then program. */
  function AfterPage(c: Chip, addr: Address, data: seq<Byte>, m: nat, len: nat): Chip
    requires Ready(c) && PageAt(addr, m, len) && m + len <= |data|
  {
    var enabled := c.(wel := true);
    var prepared := if FreshSector(addr, m, c.sectorSize) then AfterErase(enabled, addr + m).(wel := true) else enabled;
    AfterProgram(prepared, addr + m, PageImage(data[m..m + len]))
  }

  lemma WrittenNothing(mem: Image, addr: Address, data: seq<Byte>, ss: nat)
    requires KnownSectorSize(ss)
    ensures Written(mem, addr, data, 0, ss) == mem
  {
  }

  lemma OnePageMore(c: Chip, addr: Address, data: seq<Byte>, count: nat, len: nat)
    requires Ready(c) && Pages(addr, data, count + 1, len) && Pages(addr, data, count, len)
    ensures var m := Offset(len, count);
      PageAt(addr, m, len) && m + len == Offset(len, count + 1) <= |data|
    ensures AfterPage(AfterPages(c, addr, data, count, len), addr, data, Offset(len, count), len)
      == AfterPages(c, addr, data, count + 1, len)
  {
    NextPage(addr, data, count, len);
    hide Written, Pages, PageAt, PageOps, Prepared, AfterPages, AfterPage, Offset, Ops, Ready, Programmed, PageImage;
    PagesSoFar(c, addr, data, count, len);
    var m := Offset(len, count);
    var before := AfterPages(c, addr, data, count, len);
    PageWritten(c.mem, addr, data, m, len, c.sectorSize);
    PageEffect(before, c.mem, addr, data, m, len);
    PagesSoFar(c, addr, data, count + 1, len);
    LastOps(addr, data, count, len, c.sectorSize);
    SameChip(c, before, AfterPage(before, addr, data, m, len), AfterPages(c, addr, data, count + 1, len));
  }

  lemma NextPage(addr: Address, data: seq<Byte>, count: nat, len: nat)
    requires Pages(addr, data, count + 1, len)
    ensures var m := Offset(len, count);
      PageAt(addr, m, len) && m + len == Offset(len, count + 1) <= |data|
  {
    PageOf(addr, data, count + 1, len);
  }

  lemma SameChip(c: Chip, mid: Chip, t: Chip, u: Chip)
    requires mid == c.(mem := mid.mem, ops := mid.ops, wel := mid.wel)
    requires t == mid.(mem := t.mem, ops := t.ops, wel := false)
    requires u == c.(mem := t.mem, ops := t.ops, wel := false)
    ensures t == u
  {
  }

  lemma PagesSoFar(c: Chip, addr: Address, data: seq<Byte>, count: nat, len: nat)
    requires Ready(c) && Pages(addr, data, count, len)
    ensures var n := Offset(len, count); var now := AfterPages(c, addr, data, count, len);
      && n <= |data| && Ready(now) && (count > 0 ==> !now.wel)
      && now.mem == Written(c.mem, addr, data, n, c.sectorSize)
      && now.ops == c.ops + Ops(addr, data, count, len, c.sectorSize)
      && now == c.(mem := now.mem, ops := now.ops, wel := now.wel)
  {
    if count == 0 {
      assert Offset(len, 0) == 0;
      WrittenNothing(c.mem, addr, data, c.sectorSize);
    } else {
      PageOf(addr, data, count, len);
    }
  }

  lemma LastOps(addr: Address, data: seq<Byte>, count: nat, len: nat, ss: nat)
    requires KnownSectorSize(ss) && Pages(addr, data, count + 1, len) && Pages(addr, data, count, len)
    ensures var m := Offset(len, count);
      && PageAt(addr, m, len) && m + len <= |data|
      && Ops(addr, data, count + 1, len, ss) == Ops(addr, data, count, len, ss) + PageOps(addr, data, m, len, ss)
  {
    PageOf(addr, data, count + 1, len);
  }

  lemma PageEffect(c: Chip, mem: Image, addr: Address, data: seq<Byte>, m: nat, len: nat)
    requires Ready(c) && PageAt(addr, m, len) && m + len <= |data|
    requires c.mem == Written(mem, addr, data, m, c.sectorSize)
    ensures var t := AfterPage(c, addr, data, m, len);
      && t.mem == Programmed(Prepared(mem, addr, data, m, c.sectorSize), addr + m, PageImage(data[m..m + len]))
      && t.ops == c.ops + PageOps(addr, data, m, len, c.sectorSize)
      && t == c.(mem := t.mem, ops := t.ops, wel := false)
  {
    hide Written, Programmed, Erased, FreshSector;
  }

  /** Entries of the sector map. */
  function Sectors(ss: nat): (n: nat)
    requires KnownSectorSize(ss)
    ensures forall p :: 0 <= p < FLASH_SIZE ==> Sector(ss, p) < n
  {
    FLASH_SIZE / ss
  }

  /** The map marks exactly the sectors touched so far. */
  ghost predicate Maps(sectorMap: array<int>, addr: Address, n: nat, ss: nat)
    requires KnownSectorSize(ss)
    reads sectorMap
  {
    forall s :: 0 <= s < sectorMap.Length ==> (sectorMap[s] != 0 <==> Touched(addr, n, ss, s))
  }

  lemma AllTouched(addr: Address, m: nat, len: nat, ss: nat)
    requires KnownSectorSize(ss) && PageAt(addr, m, len)
    ensures forall s: nat ::
      Touched(addr, m + len, ss, s) <==> Touched(addr, m, ss, s) || s == Sector(ss, addr + m)
  {
    forall s: nat ensures Touched(addr, m + len, ss, s) <==> Touched(addr, m, ss, s) || s == Sector(ss, addr + m) {
      TouchedGrows(addr, m, len, ss, s);
    }
  }

  method ProgramOnePage(spi: Spi, sectorMap: array<int>, addr: Address, data: seq<Byte>, n: nat, plen: nat)
    requires Ready(spi.chip) && PageAt(addr, n, plen) && n + plen <= |data|
    requires sectorMap.Length == Sectors(spi.chip.sectorSize) && Maps(sectorMap, addr, n, spi.chip.sectorSize)
    modifies spi, sectorMap
    ensures spi.chip == AfterPage(old(spi.chip), addr, data, n, plen)
    ensures Maps(sectorMap, addr, n + plen, old(spi.chip).sectorSize)
  {
    ghost var ss := spi.chip.sectorSize;
    var sector := Sector(spi.chip.sectorSize, addr + n);
    FreshMeansUntouched(addr, n, ss);
    AllTouched(addr, n, plen, ss);
    hide Touched, PageAt;
    if sectorMap[sector] == 0 {
      spi.FlashWriteEnable();
      spi.FlashEraseSector(addr + n);
      sectorMap[sector] := 1;
    }
    spi.FlashWriteEnable();
    spi.FlashProgramPage(addr + n, data[n..n + plen], plen);
    assert data[n..n + plen][..plen] == data[n..n + plen];
  }

  /** Reads `size` bytes back and compares. */
  method Verify(spi: Spi, addr: Address, data: seq<Byte>, size: nat) returns (ret: int)
    requires Ready(spi.chip) && size <= |data| && addr + size <= FLASH_SIZE
    modifies spi
    ensures spi.chip == old(spi.chip)
    ensures ret == if spi.chip.mem[addr..addr + size] == data[..size] then 0 else -EINVAL
  {
    ghost var c := spi.chip;
    spi.SpiCs(true);
    spi.SpiWrite8(READ);
    spi.WriteAddress(addr);
    ret := 0;
    var n := 0;
    while n < size && ret == 0
      invariant 0 <= n <= size && Reading(c, spi.chip, addr)
      invariant ret == 0 ==> |spi.chip.rx| == 4 + n && c.mem[addr..addr + n] == data[..n]
      invariant ret != 0 ==> ret == -EINVAL && c.mem[addr..addr + size] != data[..size]
      decreases size - n, ret == 0
    {
      ReadReply(c, spi.chip, addr, n);
      var d := spi.SpiRead8();
      if d != data[n] {
        assert c.mem[addr..addr + size][n] != data[..size][n];
        ret := -EINVAL;
      } else {
        assert c.mem[addr..addr + n + 1] == c.mem[addr..addr + n] + [d];
        n := n + 1;
      }
    }
    spi.SpiCs(false);
  }

  ghost predicate Reading(c: Chip, now: Chip, addr: Address) {
    && now == c.(rx := now.rx) && Ready(c)
    && |now.rx| >= 4 && now.rx[..4] == [READ] + AddressBytes(addr)
  }

  lemma ReadReply(c: Chip, now: Chip, addr: Address, n: nat)
    requires Reading(c, now, addr) && |now.rx| == 4 + n && addr + n < FLASH_SIZE
    ensures Reply(now) == c.mem[addr + n]
    ensures Reading(c, Exchange(now, 0xFF), addr)
  {
    AddressRoundTrip(addr);
    assert now.rx[1..4] == now.rx[..4][1..] == AddressBytes(addr);
    assert now.rx[0] == now.rx[..4][0];
  }

  method FlashProgram(spi: Spi, addr: Address, data: seq<Byte>, size: nat, flashId: nat, outOfMemory: bool)
    returns (ret: int)
    requires Ready(spi.chip) && flashId == spi.chip.id && Fits(addr, data, size)
    modifies spi
    ensures flashId !in {ID_M25P128, ID_MT25QL128} ==> ret == -ENODEV && spi.chip == old(spi.chip)
    ensures flashId in {ID_M25P128, ID_MT25QL128} && outOfMemory ==> ret == -ENOMEM && spi.chip == old(spi.chip)
    ensures flashId in {ID_M25P128, ID_MT25QL128} && !outOfMemory ==>
      ret == 0 && spi.chip == AfterFlashProgram(old(spi.chip), addr, data, size)
  {
    var sectorSize;
    if flashId == ID_M25P128 {
      sectorSize := 0x40000;
    } else if flashId == ID_MT25QL128 {
      sectorSize := 0x10000;
    } else {
      return -ENODEV;
    }
    if outOfMemory {
      return -ENOMEM;
    }
    if size > 0 {
      ProgramPages(spi, addr, data, size, sectorSize);
    }
    VerifiedEqual(old(spi.chip), addr, data, size);
    ret := Verify(spi, addr, data, size);
  }

  method ProgramPages(spi: Spi, addr: Address, data: seq<Byte>, size: nat, sectorSize: nat)
    requires Ready(spi.chip) && Fits(addr, data, size) && size > 0 && sectorSize == spi.chip.sectorSize
    modifies spi
    ensures spi.chip == AfterFlashProgram(old(spi.chip), addr, data, size)
  {
    hide Pages, AfterPages, AfterPage, AfterFlashProgram, Fits, Span, PageCount, Offset, PageAt;
    var sectorMap := new int[Sectors(sectorSize)](_ => 0);
    var n := 0;
    ghost var count, len := 0, PageLen(size);
    NoPages(spi.chip, addr, data, len);
    PagesFit(addr, data, size, 0);
    while n < size
      invariant count <= PageCount(size) && Pages(addr, data, count, len) && n == Offset(len, count)
      invariant n < size <==> count < PageCount(size)
      invariant n <= Span(size) && Ready(spi.chip) && spi.chip.sectorSize == sectorSize
      invariant spi.chip == AfterPages(old(spi.chip), addr, data, count, len)
      invariant Maps(sectorMap, addr, n, sectorSize)
      decreases PageCount(size) - count
    {
      var plen := if size > PAGE_SIZE then PAGE_SIZE else size;
      PagesFit(addr, data, size, count + 1);
      OnePageMore(old(spi.chip), addr, data, count, len);
      PagesSoFar(old(spi.chip), addr, data, count + 1, len);
      ProgramOnePage(spi, sectorMap, addr, data, n, plen);
      count := count + 1;
      n := n + plen;
    }
    PagesFit(addr, data, size, count);
    AllPages(old(spi.chip), addr, data, size);
  }

  lemma NoPages(c: Chip, addr: Address, data: seq<Byte>, len: nat)
    requires Ready(c)
    ensures Offset(len, 0) == 0
    ensures Pages(addr, data, 0, len) ==> AfterPages(c, addr, data, 0, len) == c
  {
  }

  lemma AllPages(c: Chip, addr: Address, data: seq<Byte>, size: nat)
    requires Ready(c) && Fits(addr, data, size) && size > 0
    ensures Pages(addr, data, PageCount(size), PageLen(size))
    ensures AfterPages(c, addr, data, PageCount(size), PageLen(size)) == AfterFlashProgram(c, addr, data, size)
  {
    PagesFit(addr, data, size, PageCount(size));
  }

  /** The range the page loop wrote reads back as the data. */
  lemma VerifiedEqual(c: Chip, addr: Address, data: seq<Byte>, size: nat)
    requires Ready(c) && Fits(addr, data, size)
    ensures addr + size <= FLASH_SIZE
    ensures AfterFlashProgram(c, addr, data, size).mem[addr..addr + size] == data[..size]
  {
    var t := AfterFlashProgram(c, addr, data, size);
    forall k | 0 <= k < size
      ensures t.mem[addr..addr + size][k] == data[..size][k]
    {
      ContentsAt(c, addr, data, size, addr + k);
    }
  }

  /** Both writes of `program_flash` without -b: the descriptor, then the bitstream. */
  function AfterProgramFlash(c: Chip, data: seq<Byte>, size: nat): Chip
    requires Ready(c) && Fits(BITSTREAM_BASE, data, size)
  {
    AfterFlashProgram(AfterFlashProgram(c, SDB_BASE, SDB_HEADER, |SDB_HEADER|), BITSTREAM_BASE, data, size)
  }

  /** `outOfMemory` and `thenOutOfMemory` say that the first and the second sector map cannot be
      allocated; in the second case the new descriptor stays behind. */
  method ProgramFlash(spi: Spi, data: seq<Byte>, size: nat, programBoot: bool, confirmed: bool,
                      outOfMemory: bool, thenOutOfMemory: bool)
    returns (ret: int)
    requires Usable(spi.chip) && Fits(if programBoot then 0 else BITSTREAM_BASE, data, size)
    modifies spi
    ensures var able := spi.chip.id in {ID_M25P128, ID_MT25QL128} && (programBoot ==> confirmed);
      var c := old(spi.chip).(rx := []);
      if !spi.present then ret == -1 && spi.chip == old(spi.chip)
      else if !able then (ret == -1 || ret == -ENODEV) && spi.chip == c
      else if outOfMemory then ret == -ENOMEM && spi.chip == c
      else if programBoot then ret == 0 && spi.chip == AfterFlashProgram(c, 0, data, size)
      else if thenOutOfMemory then
        ret == -ENOMEM && spi.chip == AfterFlashProgram(c, SDB_BASE, SDB_HEADER, |SDB_HEADER|)
      else ret == 0 && spi.chip == AfterProgramFlash(c, data, size)
  {
    var ready := spi.SpiTestPresence();
    if !ready {
      return -1;
    }
    var flashId := spi.FlashReadId();
    if flashId != ID_M25P128 && flashId != ID_MT25QL128 {
      return -ENODEV;
    }
    if programBoot {
      if !confirmed {
        return -1;
      }
      ret := FlashProgram(spi, 0, data, size, flashId, outOfMemory);
    } else {
      ret := FlashProgram(spi, SDB_BASE, SDB_HEADER, |SDB_HEADER|, flashId, outOfMemory);
      if ret == 0 {
        ret := FlashProgram(spi, BITSTREAM_BASE, data, size, flashId, thenOutOfMemory);
      }
    }
  }

  /** What one `flash_program` leaves at address `p`. */
  lemma ContentsAt(c: Chip, addr: Address, data: seq<Byte>, size: nat, p: Address)
    requires Ready(c) && Fits(addr, data, size)
    ensures var t := AfterFlashProgram(c, addr, data, size);
      && Ready(t) && t.ignored == c.ignored
      && (addr <= p < addr + Span(size) ==> t.mem[p] == data[p - addr])
      && (!Touched(addr, Span(size), c.sectorSize, Sector(c.sectorSize, p)) ==> t.mem[p] == c.mem[p])
  {
    if addr <= p < addr + Span(size) {
      SectorMonotone(c.sectorSize, addr, p);
      SectorMonotone(c.sectorSize, p, addr + Span(size) - 1);
    }
  }

  /** After `program_flash`, whatever chip it found, fresh or still selected after a boot, for every
      bitstream that fits below the descriptor: the descriptor and the bitstream read back from
      their places, whatever memory followed the buffer, no command was refused, and the System
      FPGA's own bitstream below 0x100000 is untouched. */
  lemma FlashContents(c: Chip, data: seq<Byte>, size: nat)
    requires Usable(c) && Fits(BITSTREAM_BASE, data, size) && size <= 0x500000
    ensures var t := AfterProgramFlash(c.(rx := []), data, size);
      && Ready(t) && !t.wel && t.ignored == c.ignored
      && t.mem[SDB_BASE..SDB_BASE + |SDB_HEADER|] == SDB_HEADER
      && t.mem[BITSTREAM_BASE..BITSTREAM_BASE + size] == data[..size]
      && t.mem[..BITSTREAM_BASE] == c.mem[..BITSTREAM_BASE]
  {
    hide AfterProgramFlash, SDB_HEADER;
    var was := c.(rx := []);
    DescriptorFits();
    ByteAfterBoth(was, data, size, 0);
    LatchSpent(was, data, size);
    var mem := AfterProgramFlash(was, data, size).mem;
    forall k | 0 <= k < |SDB_HEADER|
      ensures mem[SDB_BASE + k] == SDB_HEADER[k]
    {
      ByteAfterBoth(was, data, size, SDB_BASE + k);
    }
    forall k | 0 <= k < size
      ensures mem[BITSTREAM_BASE + k] == data[..size][k]
    {
      ByteAfterBoth(was, data, size, BITSTREAM_BASE + k);
    }
    forall k | 0 <= k < BITSTREAM_BASE
      ensures mem[k] == c.mem[..BITSTREAM_BASE][k]
    {
      ByteAfterBoth(was, data, size, k);
    }
    BytesAt(mem, SDB_BASE, SDB_HEADER);
    BytesAt(mem, BITSTREAM_BASE, data[..size]);
    BytesAt(mem, 0, c.mem[..BITSTREAM_BASE]);
  }

  lemma BytesAt(mem: Image, p: Address, bytes: seq<Byte>)
    requires p + |bytes| <= FLASH_SIZE && forall k :: 0 <= k < |bytes| ==> mem[p + k] == bytes[k]
    ensures mem[p..p + |bytes|] == bytes
  {
  }

  lemma LatchSpent(c: Chip, data: seq<Byte>, size: nat)
    requires Ready(c) && Fits(BITSTREAM_BASE, data, size)
    ensures !AfterProgramFlash(c, data, size).wel
  {
    DescriptorFits();
  }

  /** Whole pages are written, up to the end of the last one. */
  lemma SpanWritten(c: Chip, addr: Address, data: seq<Byte>, size: nat, p: Address, n: nat)
    requires Ready(c) && Fits(addr, data, size) && addr <= p && p + n <= addr + Span(size)
    ensures p + n <= FLASH_SIZE
    ensures AfterFlashProgram(c, addr, data, size).mem[p..p + n] == data[p - addr..p - addr + n]
  {
    var there := AfterFlashProgram(c, addr, data, size).mem[p..p + n];
    forall k | 0 <= k < n
      ensures there[k] == data[p - addr..p - addr + n][k]
    {
      ContentsAt(c, addr, data, size, p + k);
    }
    hide AfterFlashProgram;
  }

  /** The descriptor's place after `program_flash`: nothing checks the size, and a bitstream that
      reaches there leaves its own bytes. */
  lemma DescriptorAfter(c: Chip, data: seq<Byte>, size: nat, n: nat)
    requires Ready(c) && Fits(BITSTREAM_BASE, data, size) && n == |SDB_HEADER|
    ensures AfterProgramFlash(c, data, size).mem[SDB_BASE..SDB_BASE + n] ==
      if size <= 0x500000 then SDB_HEADER else data[0x500000..0x500000 + n]
  {
    hide AfterProgramFlash, SDB_HEADER;
    DescriptorFits();
    if size <= 0x500000 {
      assert c.(rx := []) == c;
      FlashContents(c, data, size);
    } else {
      OverwrittenBy(c, data, size);
    }
  }

  lemma OverwrittenBy(c: Chip, data: seq<Byte>, size: nat)
    requires Ready(c) && Fits(BITSTREAM_BASE, data, size) && size > 0x500000
    ensures AfterProgramFlash(c, data, size).mem[SDB_BASE..SDB_BASE + 192] == data[0x500000..0x500000 + 192]
  {
    DescriptorFits();
    KeepsGeometry(c, SDB_BASE, SDB_HEADER, |SDB_HEADER|);
    ContentsAt(c, SDB_BASE, SDB_HEADER, |SDB_HEADER|, SDB_BASE);
    hide AfterFlashProgram;
    SpanWritten(AfterFlashProgram(c, SDB_BASE, SDB_HEADER, |SDB_HEADER|), BITSTREAM_BASE, data, size, SDB_BASE, 192);
  }

  /** The limit is exact: the descriptor survives if and only if the bitstream is at most 0x500000
      bytes long, or happens to hold the very bytes of the descriptor at that place. */
  lemma DescriptorSurvives(c: Chip, data: seq<Byte>, size: nat)
    requires Ready(c) && Fits(BITSTREAM_BASE, data, size)
    ensures var mem, n := AfterProgramFlash(c, data, size).mem, |SDB_HEADER|;
      mem[SDB_BASE..SDB_BASE + n] == SDB_HEADER <==>
        size <= 0x500000 || data[0x500000..0x500000 + n] == SDB_HEADER
  {
    hide AfterProgramFlash;
    DescriptorFits();
    DescriptorAfter(c, data, size, |SDB_HEADER|);
  }

  lemma ByteAfterBoth(c: Chip, data: seq<Byte>, size: nat, p: Address)
    requires Ready(c) && Fits(BITSTREAM_BASE, data, size) && size <= 0x500000
    ensures var t := AfterProgramFlash(c, data, size);
      && Ready(t) && t.ignored == c.ignored
      && (SDB_BASE <= p < SDB_BASE + |SDB_HEADER| ==> t.mem[p] == SDB_HEADER[p - SDB_BASE])
      && (BITSTREAM_BASE <= p < BITSTREAM_BASE + size ==> t.mem[p] == data[p - BITSTREAM_BASE])
      && (p < BITSTREAM_BASE ==> t.mem[p] == c.mem[p])
  {
    DescriptorFits();
    KeepsGeometry(c, SDB_BASE, SDB_HEADER, |SDB_HEADER|);
    ContentsAt(c, SDB_BASE, SDB_HEADER, |SDB_HEADER|, p);
    hide AfterFlashProgram, Span, Fits;
    var mid := AfterFlashProgram(c, SDB_BASE, SDB_HEADER, |SDB_HEADER|);
    ContentsAt(mid, BITSTREAM_BASE, data, size, p);
    Apart(c.sectorSize, size, p);
  }

  lemma DescriptorFits()
    ensures |SDB_HEADER| == 192 && Fits(SDB_BASE, SDB_HEADER, |SDB_HEADER|)
  {
  }

  lemma KeepsGeometry(c: Chip, addr: Address, data: seq<Byte>, size: nat)
    requires Ready(c) && Fits(addr, data, size)
    ensures AfterFlashProgram(c, addr, data, size).sectorSize == c.sectorSize
  {
  }

  /** The sectors of the bitstream, of the descriptor and of the System FPGA's bitstream. */
  lemma Apart(ss: nat, size: nat, p: Address)
    requires KnownSectorSize(ss) && size <= 0x500000
    ensures !(BITSTREAM_BASE <= p < SDB_BASE) ==> !Touched(BITSTREAM_BASE, Span(size), ss, Sector(ss, p))
    ensures p < BITSTREAM_BASE ==> !Touched(SDB_BASE, Span(|SDB_HEADER|), ss, Sector(ss, p))
  {
    assert Span(size) <= 0x500000;
  }
}
