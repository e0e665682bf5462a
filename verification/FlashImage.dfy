/** What `flash_program` is meant to do to the memory and in which order, as functions of its
    arguments, and the properties of that order. */
module FlashImage {
  import opened Bytes
  import opened NorFlash

  /** The bytes sent for a page: the data, filled up with 0xFF. */
  function PageImage(data: seq<Byte>): (image: seq<Byte>)
    requires |data| <= PAGE_SIZE
    ensures |image| == PAGE_SIZE
  {
    data + seq(PAGE_SIZE - |data|, _ => 0xFF)
  }

  /** Sectors that meet [addr, addr + n). */
  predicate Touched(addr: nat, n: nat, ss: nat, sector: nat)
    requires KnownSectorSize(ss)
  {
    n > 0 && Sector(ss, addr) <= sector <= Sector(ss, addr + n - 1)
  }

  /** The memory after `n` bytes: data in the range, 0xFF in the rest of the touched sectors,
      everything else as before. */
  function Written(mem: Image, addr: Address, data: seq<Byte>, n: nat, ss: nat): Image
    requires KnownSectorSize(ss) && n <= |data|
  {
    seq(FLASH_SIZE, p requires 0 <= p < FLASH_SIZE =>
      if addr <= p < addr + n then data[p - addr]
      else if Touched(addr, n, ss, Sector(ss, p)) then 0xFF
      else mem[p])
  }

  /** A position of the page loop: `len` bytes at offset `m`, one page or part of one. */
  predicate PageAt(addr: Address, m: nat, len: nat) {
    addr % PAGE_SIZE == 0 && m % PAGE_SIZE == 0 && 0 < len <= PAGE_SIZE && addr + m + PAGE_SIZE <= FLASH_SIZE
  }

  /** The page at offset `m` is the first of its sector. */
  predicate FreshSector(addr: Address, m: nat, ss: nat)
    requires KnownSectorSize(ss)
  {
    m == 0 || Sector(ss, addr + m) != Sector(ss, addr + m - 1)
  }

  lemma FreshMeansUntouched(addr: Address, m: nat, ss: nat)
    requires KnownSectorSize(ss)
    ensures FreshSector(addr, m, ss) <==> !Touched(addr, m, ss, Sector(ss, addr + m))
  {
    SectorMonotone(ss, addr, addr + m);
    if m > 0 {
      SectorMonotone(ss, addr + m - 1, addr + m);
    }
  }

  lemma SectorMonotone(ss: nat, p: nat, q: nat)
    requires KnownSectorSize(ss) && p <= q
    ensures Sector(ss, p) <= Sector(ss, q)
    ensures q <= p + 1 ==> Sector(ss, q) <= Sector(ss, p) + 1
  {
  }

  lemma PageInSector(addr: Address, m: nat, len: nat, ss: nat, p: nat)
    requires KnownSectorSize(ss) && PageAt(addr, m, len) && addr + m <= p < addr + m + PAGE_SIZE
    ensures Sector(ss, p) == Sector(ss, addr + m)
  {
  }

  /** Touching one more page touches its sector and no other. */
  lemma TouchedGrows(addr: Address, m: nat, len: nat, ss: nat, sector: nat)
    requires KnownSectorSize(ss) && PageAt(addr, m, len)
    ensures Touched(addr, m + len, ss, sector) <==> Touched(addr, m, ss, sector) || sector == Sector(ss, addr + m)
  {
    PageInSector(addr, m, len, ss, addr + m + len - 1);
    SectorMonotone(ss, addr, addr + m);
    if m > 0 {
      SectorMonotone(ss, addr + m - 1, addr + m);
    }
  }

  /** The memory when the page at offset `m` is about to be programmed. */
  function Prepared(mem: Image, addr: Address, data: seq<Byte>, m: nat, ss: nat): Image
    requires KnownSectorSize(ss) && m <= |data| && addr + m < FLASH_SIZE
  {
    var now := Written(mem, addr, data, m, ss);
    if FreshSector(addr, m, ss) then Erased(now, Sector(ss, addr + m), ss) else now
  }

  lemma PreparedAt(mem: Image, addr: Address, data: seq<Byte>, m: nat, len: nat, ss: nat, p: Address)
    requires KnownSectorSize(ss) && PageAt(addr, m, len) && m + len <= |data|
    ensures Prepared(mem, addr, data, m, ss)[p] ==
      if addr <= p < addr + m then data[p - addr]
      else if Touched(addr, m + len, ss, Sector(ss, p)) then 0xFF
      else mem[p]
  {
    hide Sector, Touched, FreshSector;
    TouchedGrows(addr, m, len, ss, Sector(ss, p));
    FreshMeansUntouched(addr, m, ss);
    if addr <= p < addr + m && FreshSector(addr, m, ss) {
      FreshSparesRange(addr, m, ss, p);
    }
  }

  /** Erasing a fresh sector does not reach what has been written. */
  lemma FreshSparesRange(addr: Address, m: nat, ss: nat, p: nat)
    requires KnownSectorSize(ss) && addr <= p < addr + m && FreshSector(addr, m, ss)
    ensures Sector(ss, p) != Sector(ss, addr + m)
  {
    hide Sector;
    SectorMonotone(ss, p, addr + m - 1);
    SectorMonotone(ss, addr + m - 1, addr + m);
  }

  /** One page more: erase if the sector is fresh, then program. */
  lemma PageWritten(mem: Image, addr: Address, data: seq<Byte>, m: nat, len: nat, ss: nat)
    requires KnownSectorSize(ss) && PageAt(addr, m, len) && m + len <= |data|
    ensures Programmed(Prepared(mem, addr, data, m, ss), addr + m, PageImage(data[m..m + len]))
      == Written(mem, addr, data, m + len, ss)
  {
    var image, before := PageImage(data[m..m + len]), Prepared(mem, addr, data, m, ss);
    var after, wanted := Programmed(before, addr + m, image), Written(mem, addr, data, m + len, ss);
    forall p | 0 <= p < FLASH_SIZE
      ensures after[p] == wanted[p]
    {
      ByteWritten(mem, addr, data, m, len, ss, p);
    }
    hide Prepared, Programmed, Written, PageAt;
  }

  lemma ByteWritten(mem: Image, addr: Address, data: seq<Byte>, m: nat, len: nat, ss: nat, p: Address)
    requires KnownSectorSize(ss) && PageAt(addr, m, len) && m + len <= |data|
    ensures Programmed(Prepared(mem, addr, data, m, ss), addr + m, PageImage(data[m..m + len]))[p]
      == Written(mem, addr, data, m + len, ss)[p]
  {
    hide Prepared, Programmed;
    PreparedAt(mem, addr, data, m, len, ss, p);
    if addr + m <= p < addr + m + PAGE_SIZE {
      PageInSector(addr, m, len, ss, p);
      TouchedGrows(addr, m, len, ss, Sector(ss, p));
    }
    ProgramErasedPage(Prepared(mem, addr, data, m, ss), addr + m, PageImage(data[m..m + len]), p);
  }

  // ---- the order of operations ----

  function PageOps(addr: Address, data: seq<Byte>, m: nat, len: nat, ss: nat): seq<Op>
    requires KnownSectorSize(ss) && PageAt(addr, m, len) && m + len <= |data|
  {
    (if FreshSector(addr, m, ss) then [Erase(Sector(ss, addr + m))] else [])
    + [Program(addr + m, PageImage(data[m..m + len]))]
  }

  /** `count` pages of `len` bytes; a short page stands alone. */
  predicate Pages(addr: Address, data: seq<Byte>, count: nat, len: nat) {
    && addr % PAGE_SIZE == 0 && 0 < len <= PAGE_SIZE && (len == PAGE_SIZE || count <= 1)
    && addr + PAGE_SIZE * count <= FLASH_SIZE && Offset(len, count) <= |data|
  }

  /** The end of the first `count` pages, the last of which has `len` bytes. */
  function Offset(len: nat, count: nat): nat { if count == 0 then 0 else PAGE_SIZE * (count - 1) + len }

  lemma PageOf(addr: Address, data: seq<Byte>, count: nat, len: nat)
    requires Pages(addr, data, count, len) && count > 0
    ensures Pages(addr, data, count - 1, len)
    ensures Offset(len, count - 1) + len == Offset(len, count) <= |data|
    ensures PageAt(addr, Offset(len, count - 1), len)
  {
    if len != PAGE_SIZE {
      assert count == 1 && Offset(len, 0) == 0;
    }
  }

  function Ops(addr: Address, data: seq<Byte>, count: nat, len: nat, ss: nat): seq<Op>
    requires KnownSectorSize(ss) && Pages(addr, data, count, len)
  {
    if count == 0 then []
    else
      PageOf(addr, data, count, len);
      Ops(addr, data, count - 1, len, ss) + PageOps(addr, data, Offset(len, count - 1), len, ss)
  }

  /** Exactly the sectors meeting the written range are erased, each of them once. */
  lemma {:induction false} ErasedOnce(addr: Address, data: seq<Byte>, count: nat, len: nat, ss: nat, sector: nat)
    requires KnownSectorSize(ss) && Pages(addr, data, count, len)
    ensures multiset(Ops(addr, data, count, len, ss))[Erase(sector)] ==
      if Touched(addr, Offset(len, count), ss, sector) then 1 else 0
  {
    hide Touched, PageOps, Pages;
    NothingTouched(addr, len, ss, sector);
    if count > 0 {
      PageOf(addr, data, count, len);
      ErasedOnce(addr, data, count - 1, len, ss, sector);
      ErasedStep(addr, data, count, len, ss, sector);
    }
  }

  lemma NothingTouched(addr: Address, len: nat, ss: nat, sector: nat)
    requires KnownSectorSize(ss)
    ensures !Touched(addr, Offset(len, 0), ss, sector)
  {
  }

  lemma ErasedStep(addr: Address, data: seq<Byte>, count: nat, len: nat, ss: nat, sector: nat)
    requires KnownSectorSize(ss) && Pages(addr, data, count, len) && count > 0 && Pages(addr, data, count - 1, len)
    requires multiset(Ops(addr, data, count - 1, len, ss))[Erase(sector)] ==
      if Touched(addr, Offset(len, count - 1), ss, sector) then 1 else 0
    ensures multiset(Ops(addr, data, count, len, ss))[Erase(sector)] ==
      if Touched(addr, Offset(len, count), ss, sector) then 1 else 0
  {
    hide *;
    LastPage(addr, data, count, len, ss);
    var m := Offset(len, count - 1);
    TouchedGrows(addr, m, len, ss, sector);
    PageErases(addr, data, m, len, ss, sector);
    FreshMeansUntouched(addr, m, ss);
    MultisetConcat(Ops(addr, data, count - 1, len, ss), PageOps(addr, data, m, len, ss), Erase(sector));
  }

  lemma MultisetConcat(a: seq<Op>, b: seq<Op>, x: Op)
    ensures multiset(a + b)[x] == multiset(a)[x] + multiset(b)[x]
  {
  }

  lemma PageErases(addr: Address, data: seq<Byte>, m: nat, len: nat, ss: nat, sector: nat)
    requires KnownSectorSize(ss) && PageAt(addr, m, len) && m + len <= |data|
    ensures multiset(PageOps(addr, data, m, len, ss))[Erase(sector)] ==
      if FreshSector(addr, m, ss) && sector == Sector(ss, addr + m) then 1 else 0
  {
  }

  /** The program operations, in order of address, one for each page. */
  function Programs(ops: seq<Op>): seq<Op> {
    if ops == [] then []
    else Programs(ops[..|ops| - 1]) + if ops[|ops| - 1].Program? then [ops[|ops| - 1]] else []
  }

  lemma {:induction false} ProgramsConcat(a: seq<Op>, b: seq<Op>)
    ensures Programs(a + b) == Programs(a) + Programs(b)
  {
    if b == [] {
      assert a + b == a;
    } else {
      ProgramsConcat(a, b[..|b| - 1]);
      assert (a + b)[..|a + b| - 1] == a + b[..|b| - 1];
    }
  }

  /** The program operation of page `k`. */
  function PageCommand(addr: Address, data: seq<Byte>, k: nat, len: nat): Op
    requires Pages(addr, data, k + 1, len)
  {
    PageOf(addr, data, k + 1, len);
    Program(addr + Offset(len, k), PageImage(data[Offset(len, k)..Offset(len, k) + len]))
  }

  /** The program operations of the first `count` pages, in order. */
  function Commands(addr: Address, data: seq<Byte>, count: nat, len: nat): (ops: seq<Op>)
    requires Pages(addr, data, count, len)
    ensures |ops| == count
  {
    if count == 0 then []
    else
      PageOf(addr, data, count, len);
      Commands(addr, data, count - 1, len) + [PageCommand(addr, data, count - 1, len)]
  }

  /** Each page is programmed once, with its own bytes, in order of address. */
  lemma {:induction false} ProgrammedOnce(addr: Address, data: seq<Byte>, count: nat, len: nat, ss: nat)
    requires KnownSectorSize(ss) && Pages(addr, data, count, len)
    ensures Programs(Ops(addr, data, count, len, ss)) == Commands(addr, data, count, len)
  {
    if count > 0 {
      PageOf(addr, data, count, len);
      ProgrammedOnce(addr, data, count - 1, len, ss);
      ProgrammedStep(addr, data, count, len, ss);
    }
  }

  lemma ProgrammedStep(addr: Address, data: seq<Byte>, count: nat, len: nat, ss: nat)
    requires KnownSectorSize(ss) && Pages(addr, data, count, len) && count > 0 && Pages(addr, data, count - 1, len)
    requires Programs(Ops(addr, data, count - 1, len, ss)) == Commands(addr, data, count - 1, len)
    ensures Programs(Ops(addr, data, count, len, ss)) == Commands(addr, data, count, len)
  {
    hide *;
    LastPage(addr, data, count, len, ss);
    var m := Offset(len, count - 1);
    ProgramsConcat(Ops(addr, data, count - 1, len, ss), PageOps(addr, data, m, len, ss));
    PageOpsPrograms(addr, data, m, len, ss);
  }

  /** The last page's operations and its command. */
  lemma LastPage(addr: Address, data: seq<Byte>, count: nat, len: nat, ss: nat)
    requires KnownSectorSize(ss) && Pages(addr, data, count, len) && count > 0
    ensures Pages(addr, data, count - 1, len)
    ensures var m := Offset(len, count - 1);
      && PageAt(addr, m, len) && m + len == Offset(len, count) <= |data| && len <= PAGE_SIZE && addr + m < FLASH_SIZE
      && Ops(addr, data, count, len, ss) == Ops(addr, data, count - 1, len, ss) + PageOps(addr, data, m, len, ss)
      && Commands(addr, data, count, len)
         == Commands(addr, data, count - 1, len) + [Program(addr + m, PageImage(data[m..m + len]))]
  {
    PageOf(addr, data, count, len);
    hide Pages, PageOps, Offset, PageImage, PageCommand;
    LastCommand(addr, data, count, len);
  }

  lemma LastCommand(addr: Address, data: seq<Byte>, count: nat, len: nat)
    requires Pages(addr, data, count, len) && count > 0
    ensures var m := Offset(len, count - 1);
      && addr + m < FLASH_SIZE && m + len <= |data| && len <= PAGE_SIZE
      && PageCommand(addr, data, count - 1, len) == Program(addr + m, PageImage(data[m..m + len]))
  {
    PageOf(addr, data, count, len);
  }

  lemma PageOpsPrograms(addr: Address, data: seq<Byte>, m: nat, len: nat, ss: nat)
    requires KnownSectorSize(ss) && PageAt(addr, m, len) && m + len <= |data|
    ensures Programs(PageOps(addr, data, m, len, ss)) == [Program(addr + m, PageImage(data[m..m + len]))]
  {
    var ops := PageOps(addr, data, m, len, ss);
    var n := |ops| - 1;
    assert Programs(ops[..n]) == [] by {
      if n == 1 {
        assert ops[..1] == [ops[0]] && ops[..1][..0] == [];
      }
    }
  }

  /** Every page is programmed after the erasure of its sector, which is never erased again. */
  lemma EraseComesFirst(addr: Address, data: seq<Byte>, count: nat, len: nat, ss: nat, j: nat)
    requires KnownSectorSize(ss) && Pages(addr, data, count, len)
    requires j < |Ops(addr, data, count, len, ss)| && Ops(addr, data, count, len, ss)[j].Program?
    ensures var ops := Ops(addr, data, count, len, ss);
      var erase := Erase(Sector(ss, ops[j].addr));
      && erase in ops[..j] && erase !in ops[j..]
  {
    var ops := Ops(addr, data, count, len, ss);
    var erase := Erase(Sector(ss, ops[j].addr));
    ErasedEarlier(addr, data, count, len, ss, j);
    ErasedOnce(addr, data, count, len, ss, erase.sector);
    OnceIn(ops, ops[..j], erase);
  }

  lemma {:induction false} ErasedEarlier(addr: Address, data: seq<Byte>, count: nat, len: nat, ss: nat, j: nat)
    requires KnownSectorSize(ss) && Pages(addr, data, count, len)
    requires j < |Ops(addr, data, count, len, ss)| && Ops(addr, data, count, len, ss)[j].Program?
    ensures var ops := Ops(addr, data, count, len, ss); Erase(Sector(ss, ops[j].addr)) in ops[..j]
  {
    hide Pages, PageOps, Offset, PageImage, PageAt;
    PageOf(addr, data, count, len);
    var m := Offset(len, count - 1);
    var before, page := Ops(addr, data, count - 1, len, ss), PageOps(addr, data, m, len, ss);
    if j < |before| {
      ErasedEarlier(addr, data, count - 1, len, ss, j);
      assert (before + page)[..j] == before[..j];
    } else {
      PageOpsShape(addr, data, m, len, ss);
      assert (before + page)[..j] == before + page[..|page| - 1];
      ErasedBefore(addr, data, count - 1, len, ss);
    }
  }

  lemma PageOpsShape(addr: Address, data: seq<Byte>, m: nat, len: nat, ss: nat)
    requires KnownSectorSize(ss) && PageAt(addr, m, len) && m + len <= |data|
    ensures var page := PageOps(addr, data, m, len, ss);
      && page[|page| - 1] == Program(addr + m, PageImage(data[m..m + len]))
      && page[..|page| - 1] == (if FreshSector(addr, m, ss) then [Erase(Sector(ss, addr + m))] else [])
  {
  }

  /** The sector of the next page is either fresh or already erased. */
  lemma ErasedBefore(addr: Address, data: seq<Byte>, count: nat, len: nat, ss: nat)
    requires KnownSectorSize(ss) && Pages(addr, data, count, len)
    ensures var m := Offset(len, count);
      FreshSector(addr, m, ss) || Erase(Sector(ss, addr + m)) in Ops(addr, data, count, len, ss)
  {
    var m := Offset(len, count);
    FreshMeansUntouched(addr, m, ss);
    ErasedOnce(addr, data, count, len, ss, Sector(ss, addr + m));
    assert !FreshSector(addr, m, ss) ==> Erase(Sector(ss, addr + m)) in multiset(Ops(addr, data, count, len, ss));
  }

  /** What occurs once, and in a prefix, does not occur after it. */
  lemma OnceIn(s: seq<Op>, prefix: seq<Op>, x: Op)
    requires multiset(s)[x] <= 1 && prefix <= s && x in prefix
    ensures x !in s[|prefix|..]
  {
    var rest := s[|prefix|..];
    assert s == prefix + rest;
    assert multiset(s)[x] == multiset(prefix)[x] + multiset(rest)[x];
    assert x in multiset(prefix);
    assert multiset(rest)[x] == 0;
  }
}
