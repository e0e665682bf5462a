/** The boot machine with the flash controller, the SPI master and the flash: what it hands to
    any loader, for any SPI latency. */
module FlashFeed {
  import opened Bytes
  import opened NorFlash
  import FlashReader
  import FlashBoot

  /** `handed` collects the bytes the loader has taken. */
  datatype Feed = Feed(fb: FlashBoot.State, r: FlashReader.Reader, handed: seq<Byte>)

  /** What the surroundings decide in a cycle: the loader's request and DONE flag, and the link
      to the flash. */
  datatype Env = Env(rd: bool, done: bool, link: FlashReader.Link)

  function BootIn(f: Feed, e: Env): FlashBoot.In {
    FlashBoot.In(true, true, FlashReader.Ready(f.r.ctl, f.fb.setAddr, f.fb.read), f.r.ctl.data, e.rd, e.done)
  }

  function Step(f: Feed, e: Env): Feed
    requires KnownSectorSize(f.r.chip.sectorSize)
  {
    Feed(FlashBoot.Next(f.fb, BootIn(f, e)),
         FlashReader.Wired(f.r, f.fb.setAddr, f.fb.addr, f.fb.read, e.link),
         if f.fb.fsm.LoadBsByte? && e.rd then f.handed + [f.fb.data] else f.handed)
  }

  /** A set-address request for `a`: issued, running, or answered. */
  predicate SeekPhase(f: Feed, a: Address) {
    && !f.fb.read && f.fb.addr == a
    && if f.fb.setAddr then FlashReader.Resting(f.r)
       else FlashReader.Seeking(f.r, a) || FlashReader.Selected(f.r, a, 0)
  }

  /** A read request for byte `n` from `a`: issued, running, or answered. */
  predicate ReadPhase(f: Feed, a: Address, n: nat, mem: Image)
    requires a + n < FLASH_SIZE
  {
    && !f.fb.setAddr
    && if f.fb.read then FlashReader.Selected(f.r, a, n)
       else FlashReader.Fetching(f.r, a, n) || (FlashReader.Selected(f.r, a, n + 1) && f.r.ctl.data == mem[a + n])
  }

  /** The boot machine and the flash controller are in step. */
  predicate Synchronised(f: Feed, mem: Image) {
    match f.fb.fsm
    case Startup | SelectSdb | SelectBitstream => FlashReader.Resting(f.r) && !f.fb.setAddr && !f.fb.read
    case WaitSelectSdb => SeekPhase(f, FlashBoot.SDB_ROOT_OFFSET)
    case WaitSelectBitstream => SeekPhase(f, FlashBoot.SDB_BITSTREAM_OFFSET)
    case CheckSig0 | CheckSig1 | CheckSig2 | CheckSig3 =>
      ReadPhase(f, FlashBoot.SDB_ROOT_OFFSET, FlashBoot.SigIndex(f.fb.fsm), mem)
    case FetchBsByte =>
      |f.handed| <= FlashBoot.BITSTREAM_SIZE && ReadPhase(f, FlashBoot.SDB_BITSTREAM_OFFSET, |f.handed|, mem)
    case LoadBsByte =>
      && |f.handed| <= FlashBoot.BITSTREAM_SIZE
      && !f.fb.setAddr && !f.fb.read
      && FlashReader.Selected(f.r, FlashBoot.SDB_BITSTREAM_OFFSET, |f.handed| + 1)
      && f.fb.data == mem[FlashBoot.SDB_BITSTREAM_OFFSET + |f.handed|]
    case NoBitstream | BootDone => true
  }

  predicate SignatureAt(mem: Image, k: nat)
    requires k <= 4
  {
    mem[FlashBoot.SDB_ROOT_OFFSET..FlashBoot.SDB_ROOT_OFFSET + k] == FlashBoot.SDB_SIGNATURE[..k]
  }

  /** The bytes handed out are the flash's, in order, after a matching signature. */
  predicate Faithful(f: Feed, mem: Image) {
    && |f.handed| <= FlashBoot.BITSTREAM_SIZE + 1
    && f.handed == mem[FlashBoot.SDB_BITSTREAM_OFFSET..FlashBoot.SDB_BITSTREAM_OFFSET + |f.handed|]
    && (f.handed != [] ==> SignatureAt(mem, 4))
  }

  /** A read request on a streaming flash, running, or answered. */
  predicate Streamed(f: Feed, a: Address, n: nat) {
    if f.fb.read then FlashReader.Selected(f.r, a, n)
    else FlashReader.Fetching(f.r, a, n) || FlashReader.Selected(f.r, a, n)
  }

  /** Once the boot is over, the flash stays selected in the middle of a fast read. */
  ghost predicate Streaming(f: Feed) { !f.fb.setAddr && exists a, n :: Streamed(f, a, n) }

  ghost predicate Inv(f: Feed, mem: Image) {
    && KnownSectorSize(f.r.chip.sectorSize)
    && Faithful(f, mem)
    && f.r.chip.mem == mem
    && (FlashBoot.Over(f.fb.fsm) ==> Streaming(f))
    && (!FlashBoot.Over(f.fb.fsm) ==>
          && Synchronised(f, mem)
          && SignatureAt(mem, FlashBoot.SigIndex(f.fb.fsm))
          && (!FlashBoot.Loading(f.fb.fsm) ==> f.handed == [])
          && (!f.fb.fsm.Startup? ==> f.fb.byteCount == |f.handed|))
    && (f.fb.fsm.NoBitstream? ==> GaveUp(f, mem))
  }

  /** The boot machine's two reasons to report that there is no bitstream. */
  predicate GaveUp(f: Feed, mem: Image) {
    if f.handed == [] then !SignatureAt(mem, 4) else |f.handed| == FlashBoot.BITSTREAM_SIZE + 1
  }

  lemma SeekCycle(f: Feed, a: Address, e: Env)
    requires SeekPhase(f, a)
    ensures var t := FlashReader.Cycle(f.r, f.fb.setAddr, f.fb.addr, f.fb.read, e.link.finish, e.link.dontCare);
      && t.chip.mem == f.r.chip.mem && t.chip.sectorSize == f.r.chip.sectorSize
      && if FlashReader.Ready(f.r.ctl, f.fb.setAddr, f.fb.read) then FlashReader.Selected(t, a, 0)
         else FlashReader.Seeking(t, a) || FlashReader.Selected(t, a, 0)
    ensures FlashReader.Ready(f.r.ctl, f.fb.setAddr, f.fb.read) ==> !f.fb.setAddr
  {
    PhaseQuiet(f, a, 0);
    CycleKeeps(f, e);
    hide FlashReader.Cycle, FlashReader.Seeking, FlashReader.Streaming;
    if f.fb.setAddr {
      FlashReader.SeekStarts(f.r, a, false, e.link.finish, e.link.dontCare);
    } else if FlashReader.Seeking(f.r, a) {
      FlashReader.SeekStep(f.r, a, e.link.finish, e.link.dontCare);
    } else {
      FlashReader.RestStep(f.r, a, e.link.finish, e.link.dontCare);
    }
  }

  lemma ReadCycle(f: Feed, a: Address, n: nat, e: Env)
    requires a + n < FLASH_SIZE && ReadPhase(f, a, n, f.r.chip.mem)
    ensures var t := FlashReader.Cycle(f.r, f.fb.setAddr, f.fb.addr, f.fb.read, e.link.finish, e.link.dontCare);
      && t.chip.mem == f.r.chip.mem && t.chip.sectorSize == f.r.chip.sectorSize
      && if FlashReader.Ready(f.r.ctl, f.fb.setAddr, f.fb.read) then
           t == f.r && FlashReader.Selected(t, a, n + 1) && t.ctl.data == t.chip.mem[a + n]
         else FlashReader.Fetching(t, a, n) || (FlashReader.Selected(t, a, n + 1) && t.ctl.data == t.chip.mem[a + n])
    ensures FlashReader.Ready(f.r.ctl, f.fb.setAddr, f.fb.read) ==> !f.fb.read
  {
    PhaseQuiet(f, a, n);
    CycleKeeps(f, e);
    hide FlashReader.Cycle, FlashReader.Fetching, FlashReader.Streaming;
    if f.fb.read {
      FlashReader.FetchStarts(f.r, a, n, f.fb.addr, e.link.finish, e.link.dontCare);
    } else if FlashReader.Fetching(f.r, a, n) {
      FlashReader.FetchStep(f.r, a, n, f.fb.addr, e.link.finish, e.link.dontCare);
    } else {
      FlashReader.RestStep(f.r, f.fb.addr, e.link.finish, e.link.dontCare);
    }
    assert (a + n) % FLASH_SIZE == a + n;
  }

  lemma PhaseQuiet(f: Feed, a: Address, n: nat)
    requires a + n < FLASH_SIZE
    requires SeekPhase(f, a) || ReadPhase(f, a, n, f.r.chip.mem)
    ensures FlashReader.Quiet(f.r)
  {
    hide FlashReader.Quiet, FlashReader.Streaming;
  }

  lemma CycleKeeps(f: Feed, e: Env)
    requires FlashReader.Quiet(f.r)
    ensures var t := FlashReader.Cycle(f.r, f.fb.setAddr, f.fb.addr, f.fb.read, e.link.finish, e.link.dontCare);
      t.chip.mem == f.r.chip.mem && t.chip.sectorSize == f.r.chip.sectorSize
  {
  }

  lemma GeometryKept(f: Feed, e: Env)
    requires KnownSectorSize(f.r.chip.sectorSize)
    ensures KnownSectorSize(Step(f, e).r.chip.sectorSize)
  {
  }

  /** While the flash is connected: for any request and DONE flag of the loader, any latency. */
  lemma InvStep(f: Feed, e: Env, mem: Image)
    requires Inv(f, mem) && !e.link.donePin
    ensures Inv(Step(f, e), mem)
  {
    GeometryKept(f, e);
    match f.fb.fsm
    case Startup => StepWaiting(f, e, mem);
    case SelectSdb => StepWaiting(f, e, mem);
    case SelectBitstream => StepWaiting(f, e, mem);
    case WaitSelectSdb => StepSeeking(f, e, mem);
    case WaitSelectBitstream => StepSeeking(f, e, mem);
    case FetchBsByte => StepFetch(f, e, mem);
    case LoadBsByte => StepLoad(f, e, mem);
    case NoBitstream => StepOver(f, e, mem);
    case BootDone => StepOver(f, e, mem);
    case _ => StepCheck(f, e, mem);
  }

  lemma StepWaiting(f: Feed, e: Env, mem: Image)
    requires Inv(f, mem) && !e.link.donePin && (f.fb.fsm.Startup? || f.fb.fsm.SelectSdb? || f.fb.fsm.SelectBitstream?)
    ensures Inv(Step(f, e), mem)
  {
    hide FlashReader.Cycle, FlashReader.Resting;
    FlashReader.RestStep(f.r, f.fb.addr, e.link.finish, e.link.dontCare);
    match f.fb.fsm
    case Startup =>
    case SelectSdb =>
    case SelectBitstream =>
  }

  lemma StepSeeking(f: Feed, e: Env, mem: Image)
    requires Inv(f, mem) && !e.link.donePin && (f.fb.fsm.WaitSelectSdb? || f.fb.fsm.WaitSelectBitstream?)
    ensures Inv(Step(f, e), mem)
  {
    hide FlashReader.Cycle, FlashReader.Resting, FlashReader.Seeking, FlashReader.Selected, FlashReader.Ready;
    match f.fb.fsm
    case WaitSelectSdb => SeekCycle(f, FlashBoot.SDB_ROOT_OFFSET, e);
    case WaitSelectBitstream => SeekCycle(f, FlashBoot.SDB_BITSTREAM_OFFSET, e);
  }

  lemma StepOver(f: Feed, e: Env, mem: Image)
    requires Inv(f, mem) && !e.link.donePin && FlashBoot.Over(f.fb.fsm)
    ensures Inv(Step(f, e), mem)
  {
    hide FlashReader.Cycle, FlashReader.Fetching, FlashReader.Streaming;
    var a, n :| Streamed(f, a, n);
    var t := Step(f, e);
    var m := StreamedStep(f, a, n, e);
    OverMoves(f.fb, BootIn(f, e));
    assert Streamed(t, a, m);
    hide FlashBoot.Next, Streamed, Synchronised, SignatureAt;
  }

  lemma OverMoves(s: FlashBoot.State, i: FlashBoot.In)
    requires i.rstN && i.enable && FlashBoot.Over(s.fsm)
    ensures var t := FlashBoot.Next(s, i); t.fsm == s.fsm && !t.read && t.setAddr == s.setAddr
  {
    match s.fsm
    case NoBitstream =>
    case BootDone =>
  }

  lemma StreamedStep(f: Feed, a: Address, n: nat, e: Env) returns (m: nat)
    requires Streamed(f, a, n) && !f.fb.setAddr
    ensures var t := FlashReader.Cycle(f.r, f.fb.setAddr, f.fb.addr, f.fb.read, e.link.finish, e.link.dontCare);
      && t.chip.mem == f.r.chip.mem && t.chip.sectorSize == f.r.chip.sectorSize
      && (FlashReader.Fetching(t, a, m) || FlashReader.Selected(t, a, m))
  {
    hide FlashReader.Cycle, FlashReader.Streaming;
    StreamedQuiet(f, a, n);
    CycleKeeps(f, e);
    m := n;
    if f.fb.read {
      FlashReader.FetchStarts(f.r, a, n, f.fb.addr, e.link.finish, e.link.dontCare);
    } else if FlashReader.Fetching(f.r, a, n) {
      FlashReader.FetchStep(f.r, a, n, f.fb.addr, e.link.finish, e.link.dontCare);
      var t := FlashReader.Cycle(f.r, f.fb.setAddr, f.fb.addr, f.fb.read, e.link.finish, e.link.dontCare);
      m := if FlashReader.Fetching(t, a, n) then n else n + 1;
    } else {
      FlashReader.RestStep(f.r, f.fb.addr, e.link.finish, e.link.dontCare);
    }
  }

  lemma StreamedQuiet(f: Feed, a: Address, n: nat)
    requires Streamed(f, a, n)
    ensures FlashReader.Quiet(f.r)
  {
    hide FlashReader.Quiet, FlashReader.Streaming;
  }

  lemma StepCheck(f: Feed, e: Env, mem: Image)
    requires Inv(f, mem) && !e.link.donePin && FlashBoot.Checking(f.fb.fsm)
    ensures Inv(Step(f, e), mem)
  {
    hide FlashReader.Cycle, FlashReader.Resting, FlashReader.Fetching, FlashReader.Ready, FlashReader.Selected;
    var k := FlashBoot.SigIndex(f.fb.fsm);
    ReadCycle(f, FlashBoot.SDB_ROOT_OFFSET, k, e);
    FlashBoot.CheckMoves(f.fb, BootIn(f, e));
    hide FlashBoot.Next, SignatureAt;
    var t := Step(f, e);
    SelectedRests(t.r, FlashBoot.SDB_ROOT_OFFSET, k + 1);
    if BootIn(f, e).ready {
      if mem[FlashBoot.SDB_ROOT_OFFSET + k] == FlashBoot.SDB_SIGNATURE[k] {
        OneMoreSignatureByte(mem, k);
        CheckPassed(f.fb.fsm);
        assert Faithful(t, mem);
      } else {
        SignatureBroken(mem, k);
        assert Streamed(t, FlashBoot.SDB_ROOT_OFFSET, k + 1);
      }
    }
  }

  lemma SignatureBroken(mem: Image, k: nat)
    requires k < 4 && mem[FlashBoot.SDB_ROOT_OFFSET + k] != FlashBoot.SDB_SIGNATURE[k]
    ensures !SignatureAt(mem, 4)
  {
    assert mem[FlashBoot.SDB_ROOT_OFFSET..FlashBoot.SDB_ROOT_OFFSET + 4][k] == mem[FlashBoot.SDB_ROOT_OFFSET + k];
    assert FlashBoot.SDB_SIGNATURE[..4][k] == FlashBoot.SDB_SIGNATURE[k];
  }

  lemma CheckPassed(s: FlashBoot.Fsm)
    requires FlashBoot.Checking(s)
    ensures var t := FlashBoot.AfterCheck(s);
      && FlashBoot.SigIndex(t) == FlashBoot.SigIndex(s) + 1
      && (FlashBoot.Checking(t) <==> !s.CheckSig3?) && (t.SelectBitstream? <==> s.CheckSig3?)
  {
  }

  lemma SelectedRests(r: FlashReader.Reader, a: Address, n: nat)
    ensures FlashReader.Selected(r, a, n) ==> FlashReader.Resting(r)
  {
  }

  lemma OneMoreSignatureByte(mem: Image, k: nat)
    requires k < 4 && SignatureAt(mem, k) && mem[FlashBoot.SDB_ROOT_OFFSET + k] == FlashBoot.SDB_SIGNATURE[k]
    ensures SignatureAt(mem, k + 1)
  {
    assert FlashBoot.SDB_SIGNATURE[..k + 1] == FlashBoot.SDB_SIGNATURE[..k] + [FlashBoot.SDB_SIGNATURE[k]];
  }

  lemma StepFetch(f: Feed, e: Env, mem: Image)
    requires Inv(f, mem) && !e.link.donePin && f.fb.fsm.FetchBsByte?
    ensures Inv(Step(f, e), mem)
  {
    hide FlashReader.Cycle, FlashReader.Resting, FlashReader.Fetching, FlashReader.Selected, FlashReader.Ready;
    ReadCycle(f, FlashBoot.SDB_BITSTREAM_OFFSET, |f.handed|, e);
  }

  lemma StepLoad(f: Feed, e: Env, mem: Image)
    requires Inv(f, mem) && !e.link.donePin && f.fb.fsm.LoadBsByte?
    ensures Inv(Step(f, e), mem)
  {
    SelectedRests(f.r, FlashBoot.SDB_BITSTREAM_OFFSET, |f.handed| + 1);
    FlashReader.RestStep(f.r, f.fb.addr, e.link.finish, e.link.dontCare);
    FlashBoot.LoadMoves(f.fb, BootIn(f, e));
    hide FlashBoot.Next, FlashReader.Cycle, FlashReader.Resting, FlashReader.Fetching, FlashReader.Selected;
    var o, n := FlashBoot.SDB_BITSTREAM_OFFSET, |f.handed|;
    assert mem[o..o + n] + [mem[o + n]] == mem[o..o + n + 1];
    assert Streamed(Step(f, e), o, n + 1);
  }

  /** Everything after the reset of the System FPGA with an idle flash. */
  predicate AfterReset(f: Feed) {
    f.fb.fsm.Startup? && !f.fb.setAddr && !f.fb.read && FlashReader.Resting(f.r) && f.handed == []
  }

  function Run(f: Feed, es: seq<Env>): (t: Feed)
    requires KnownSectorSize(f.r.chip.sectorSize)
    ensures KnownSectorSize(t.r.chip.sectorSize)
  {
    if es == [] then f
    else
      GeometryKept(Run(f, es[..|es| - 1]), es[|es| - 1]);
      Step(Run(f, es[..|es| - 1]), es[|es| - 1])
  }

  /** The Application FPGA has not been configured in any of these cycles. */
  predicate DoneLow(es: seq<Env>) { forall j :: 0 <= j < |es| ==> FlashReader.Connected(es[j].link) }

  /** As long as DONE is low, for any loader and any SPI latency: the k-th byte handed over is
      the flash's byte 0x100000 + k, at most 0x408001 of them, and none without the right
      signature. */
  lemma {:induction false} FeedFaithful(f: Feed, es: seq<Env>)
    requires AfterReset(f) && DoneLow(es)
    ensures Inv(Run(f, es), f.r.chip.mem)
    ensures Faithful(Run(f, es), f.r.chip.mem)
  {
    if es == [] {
      assert SignatureAt(f.r.chip.mem, 0);
    } else {
      FeedFaithful(f, es[..|es| - 1]);
      InvStep(Run(f, es[..|es| - 1]), es[|es| - 1], f.r.chip.mem);
    }
  }

  /** A flash that is idle, and deselected or in the middle of a fast read, unlike `c` in nothing
      else. */
  predicate Unchanged(c: Chip, d: Chip) {
    d == c.(rx := d.rx) && d.busy == 0 && !d.wel && (d.rx != [] ==> d.rx[0] == FAST_READ)
  }

  lemma InvQuiet(f: Feed, mem: Image)
    requires Inv(f, mem)
    ensures FlashReader.Quiet(f.r)
  {
    hide FlashReader.Quiet, FlashReader.Streaming, SignatureAt, Faithful;
    match f.fb.fsm
    case NoBitstream => var a, n :| Streamed(f, a, n);
    case BootDone => var a, n :| Streamed(f, a, n);
    case WaitSelectSdb => PhaseQuiet(f, FlashBoot.SDB_ROOT_OFFSET, 0);
    case WaitSelectBitstream => PhaseQuiet(f, FlashBoot.SDB_BITSTREAM_OFFSET, 0);
    case FetchBsByte => PhaseQuiet(f, FlashBoot.SDB_BITSTREAM_OFFSET, |f.handed|);
    case Startup =>
    case SelectSdb =>
    case SelectBitstream =>
    case LoadBsByte =>
    case _ => PhaseQuiet(f, FlashBoot.SDB_ROOT_OFFSET, FlashBoot.SigIndex(f.fb.fsm));
  }

  lemma ChipKept(f: Feed, e: Env)
    requires FlashReader.Quiet(f.r) && !e.link.donePin
    ensures var c := Step(f, e).r.chip; c == f.r.chip.(rx := c.rx)
  {
    hide FlashBoot.Next;
  }

  /** A boot leaves the flash as it is, deselected or in the middle of a fast read. */
  lemma {:induction false} BootOnlyReads(f: Feed, es: seq<Env>)
    requires AfterReset(f) && DoneLow(es)
    ensures Unchanged(f.r.chip, Run(f, es).r.chip)
  {
    FeedFaithful(f, es);
    InvQuiet(Run(f, es), f.r.chip.mem);
    if es != [] {
      var before := es[..|es| - 1];
      BootOnlyReads(f, before);
      FeedFaithful(f, before);
      InvQuiet(Run(f, before), f.r.chip.mem);
      ChipKept(Run(f, before), es[|es| - 1]);
    }
    hide Inv, Faithful, Step;
  }

  /** One comparison, once its byte is there, rejects exactly when the flash's byte differs from
      the signature's. */
  lemma CheckExact(f: Feed, e: Env, mem: Image)
    requires Inv(f, mem) && FlashBoot.Checking(f.fb.fsm)
    requires FlashReader.Ready(f.r.ctl, f.fb.setAddr, f.fb.read)
    ensures var k := FlashBoot.SigIndex(f.fb.fsm);
      Step(f, e).fb.fsm.NoBitstream? <==> mem[FlashBoot.SDB_ROOT_OFFSET + k] != FlashBoot.SDB_SIGNATURE[k]
  {
    hide FlashReader.Cycle, FlashReader.Fetching, FlashReader.Selected;
    ReadCycle(f, FlashBoot.SDB_ROOT_OFFSET, FlashBoot.SigIndex(f.fb.fsm), e);
    FlashBoot.CheckMoves(f.fb, BootIn(f, e));
  }
}
