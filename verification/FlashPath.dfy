/** Booting from the flash, end to end: the boot machine, the flash controller, the flash and
    the loader, for any SPI latency and any behaviour of the INIT_B and DONE pins. */
module FlashPath {
  import opened Bytes
  import opened NorFlash
  import opened Serialiser
  import FlashReader
  import FlashBoot
  import FlashFeed
  import FeedControl
  import FlashProgramming
  import Flasher
  import HostPath
  import LoaderTiming
  import XilinxLoader

  /** `popped` and `wire` are the histories of the loader's entries and data edges; `seen` says
      that DONE was sampled high since START, `expired` that WAIT_INIT ran out since START. */
  datatype Sys = Sys(feed: FlashFeed.Feed, ld: XilinxLoader.State, popped: seq<Payload>, wire: seq<bool>,
                     seen: bool, expired: bool)

  /** The pins, the end of an SPI transfer, and what undriven bits read as. */
  datatype Env = Env(initB: bool, done: bool, upper: (Byte, Byte, Byte), link: FlashReader.Link)

  /** `p_select_boot_source` with the flash selected; the boot machine drives the low lane only. */
  function LoaderIn(s: Sys, e: Env): XilinxLoader.In {
    var fb := s.feed.fb;
    XilinxLoader.In(true, false, fb.start, 1, [e.upper.0, e.upper.1, e.upper.2, fb.data], 0, false, false,
                    fb.empty, true, e.initB, e.done)
  }

  function FeedEnv(s: Sys, e: Env): FlashFeed.Env {
    FlashFeed.Env(XilinxLoader.CsrRd(s.ld, LoaderIn(s, e)), s.ld.csrDone, e.link)
  }

  function Offer(s: Sys): Payload { Payload([s.feed.fb.data], false) }

  function Step(s: Sys, e: Env): Sys
    requires KnownSectorSize(s.feed.r.chip.sectorSize)
  {
    var i := LoaderIn(s, e);
    Sys(FlashFeed.Step(s.feed, FeedEnv(s, e)), XilinxLoader.Next(s.ld, i),
        PoppedAfter(s.ld, i, s.popped, Offer(s)), WireAfter(s.ld, i, s.wire),
        HostPath.SeenAfter(s.ld, i, s.seen), !Starting(s.ld, i) && (s.expired || LoaderTiming.Expires(s.ld, i)))
  }

  /** States in which the loader's entries are all the bytes handed over since START. */
  predicate InSession(f: XilinxLoader.Fsm) {
    f.ExtendProg? || f.WaitInit? || f.WaitInit2? || XilinxLoader.Shifting(f)
  }

  /** Not yet at the START pulse. */
  predicate BeforeStart(fb: FlashBoot.State) {
    || fb.start || FlashBoot.Checking(fb.fsm)
    || fb.fsm.Startup? || fb.fsm.SelectSdb? || fb.fsm.WaitSelectSdb? || fb.fsm.SelectBitstream?
  }

  predicate BootControl(fb: FlashBoot.State) {
    (fb.empty <==> !fb.fsm.LoadBsByte?) && (fb.start ==> fb.fsm.WaitSelectBitstream?)
  }

  /** The entry the loader latches is the one it popped: the data does not change before the
      divider's next tick, because a flash read takes longer. */
  predicate Held(s: Sys) {
    && s.popped != [] && s.popped[|s.popped| - 1] == Offer(s)
    && (FlashBoot.Over(s.feed.fb.fsm)
        || (s.feed.fb.fsm.FetchBsByte?
            && !FlashReader.Ready(s.feed.r.ctl, s.feed.fb.setAddr, s.feed.fb.read)
            && (s.feed.fb.read || s.ld.tick)))
  }

  /** The divider is set to 1: after the first cycle it ticks every other cycle. */
  predicate InPhase(s: Sys) {
    if s.feed.fb.fsm.Startup? then s.ld.clkDiv == 0
    else s.ld.clkDiv <= 1 && (s.ld.tick <==> s.ld.clkDiv == 0)
  }

  /** The invariant of the whole path, for any flash, connected or not. */
  ghost predicate Inv(s: Sys) {
    && FeedControl.Control(s.feed)
    && Clocked(s.ld, s.popped, s.wire)
    && Stream(s.popped) <= s.feed.handed
    && (InSession(s.ld.fsm) ==> Stream(s.popped) == s.feed.handed)
    && BootControl(s.feed.fb) && InPhase(s)
    && (BeforeStart(s.feed.fb) ==> s.ld.fsm.Idle?)
    && (s.ld.fsm.ReadFifo2? ==> Held(s))
  }

  /** What one cycle does to the control outputs of the boot machine. */
  predicate Controls(fb: FlashBoot.State, i: FlashBoot.In, t: FlashBoot.State) {
    && BootControl(t) && !t.fsm.Startup? && (t.start <==> fb.fsm.SelectBitstream?)
    && (BeforeStart(t) ==> BeforeStart(fb) && !fb.start)
    && (BeforeStart(fb) && !fb.start ==> BeforeStart(t) || t.fsm.NoBitstream?)
    && (fb.fsm.FetchBsByte? && !i.ready ==>
          t.fsm.FetchBsByte? && t.data == fb.data && !t.read && t.setAddr == fb.setAddr)
    && (FlashBoot.Over(fb.fsm) ==> t.fsm == fb.fsm && t.data == fb.data)
    && (fb.fsm.LoadBsByte? && i.rd ==>
          t.data == fb.data && t.setAddr == fb.setAddr && (FlashBoot.Over(t.fsm) || (t.fsm.FetchBsByte? && t.read)))
  }

  lemma BootControlStep(fb: FlashBoot.State, i: FlashBoot.In)
    requires BootControl(fb) && i.rstN && i.enable
    ensures Controls(fb, i, FlashBoot.Next(fb, i))
  {
    if FlashBoot.Checking(fb.fsm) {
      FlashBoot.CheckMoves(fb, i);
      hide FlashBoot.Next;
    } else if FlashBoot.Selecting(fb.fsm) {
      SelectControls(fb, i);
    } else {
      LoadControls(fb, i);
    }
  }

  lemma SelectControls(fb: FlashBoot.State, i: FlashBoot.In)
    requires BootControl(fb) && i.rstN && i.enable && FlashBoot.Selecting(fb.fsm)
    ensures Controls(fb, i, FlashBoot.Next(fb, i))
  {
    match fb.fsm
    case Startup =>
    case SelectSdb =>
    case WaitSelectSdb =>
    case SelectBitstream =>
    case WaitSelectBitstream =>
  }

  lemma LoadControls(fb: FlashBoot.State, i: FlashBoot.In)
    requires BootControl(fb) && i.rstN && i.enable && (FlashBoot.Loading(fb.fsm) || FlashBoot.Over(fb.fsm))
    ensures Controls(fb, i, FlashBoot.Next(fb, i))
  {
    match fb.fsm
    case FetchBsByte =>
    case LoadBsByte =>
    case NoBitstream =>
    case BootDone =>
  }

  lemma DividerStep(s: XilinxLoader.State, i: XilinxLoader.In)
    requires i.rstN && i.clkDiv == 1 && s.clkDiv <= 1
    ensures var t := XilinxLoader.Next(s, i);
      t.clkDiv == (if s.clkDiv == 0 then 1 else 0) && (t.tick <==> s.clkDiv == 1)
  {
  }

  /** How the loader moves between the states that matter here. */
  lemma LoaderMoves(s: XilinxLoader.State, i: XilinxLoader.In)
    requires i.rstN && !i.swrst
    ensures var t := XilinxLoader.Next(s, i);
      && (InSession(t.fsm) ==> InSession(s.fsm) || Starting(s, i))
      && (s.fsm.Idle? && !i.start ==> t.fsm.Idle?)
      && (t.fsm.ReadFifo2? ==> (s.fsm.ReadFifo? && !i.empty) || (s.fsm.ReadFifo2? && !s.tick))
      && (s.fsm.ReadFifo? && !i.empty ==> t.fsm.ReadFifo2?)
  {
    hide XilinxLoader.Next;
    if XilinxLoader.Beginning(s.fsm) {
      BeginTargets(s, i);
    } else if s.fsm.ReadFifo? {
      PopTargets(s, i);
    } else if s.fsm.ReadFifo2? {
      LatchFields(s, i);
    } else if s.fsm.OutputBit? {
      OutputFields(s, i);
    } else if s.fsm.ClockEdge? {
      EdgeFields(s, i);
    } else {
      FinishTargets(s, i);
    }
  }

  lemma PopTargets(s: XilinxLoader.State, i: XilinxLoader.In)
    requires i.rstN && !i.swrst && s.fsm.ReadFifo?
    ensures XilinxLoader.Next(s, i).fsm == if i.empty then XilinxLoader.ReadFifo else XilinxLoader.ReadFifo2
  {
    hide XilinxLoader.BeginFsm, XilinxLoader.FinishFsm, XilinxLoader.DivideClock;
  }

  /** The bytes handed over and the entries popped stay in step. */
  lemma StreamStep(s: Sys, e: Env)
    requires Inv(s)
    ensures var t := Step(s, e);
      Stream(t.popped) <= t.feed.handed && (InSession(t.ld.fsm) ==> Stream(t.popped) == t.feed.handed)
  {
    LoaderMoves(s.ld, LoaderIn(s, e));
    Handed(s, e);
    hide FlashFeed.Step, FeedControl.Control, XilinxLoader.Next, Clocked, Held, InPhase;
    var grown := s.popped + [Offer(s)];
    assert grown[..|s.popped|] == s.popped;
    assert Stream(grown) == Stream(s.popped) + [s.feed.fb.data];
  }

  lemma Handed(s: Sys, e: Env)
    requires Inv(s)
    ensures Step(s, e).feed.handed == s.feed.handed +
      if XilinxLoader.CsrRd(s.ld, LoaderIn(s, e)) then [s.feed.fb.data] else []
    ensures s.feed.fb.start ==> s.feed.handed == [] && !XilinxLoader.CsrRd(s.ld, LoaderIn(s, e))
  {
    hide Clocked, FlashBoot.Next, FlashReader.Wired, XilinxLoader.Next;
  }

  /** The popped entry stays on the data lines until it is latched. */
  lemma HeldStep(s: Sys, e: Env)
    requires Inv(s)
    ensures Step(s, e).ld.fsm.ReadFifo2? ==> Held(Step(s, e))
  {
    hide FlashBoot.Next, FlashReader.Wired, XilinxLoader.Next, Clocked, FlashBoot.Counted, FlashReader.Orderly;
    var t := Step(s, e);
    LoaderMoves(s.ld, LoaderIn(s, e));
    if t.ld.fsm.ReadFifo2? {
      BootControlStep(s.feed.fb, FlashFeed.BootIn(s.feed, FeedEnv(s, e)));
      DividerStep(s.ld, LoaderIn(s, e));
      if s.feed.fb.fsm.FetchBsByte? && s.feed.fb.read {
        ReadIssued(s.feed, FeedEnv(s, e));
      }
    }
  }

  lemma ReadIssued(f: FlashFeed.Feed, e: FlashFeed.Env)
    requires FeedControl.Control(f) && f.fb.fsm.FetchBsByte? && f.fb.read
    ensures !FlashFeed.Step(f, e).r.ctl.readyInt
    ensures !FlashReader.Ready(f.r.ctl, f.fb.setAddr, f.fb.read)
  {
    hide FlashBoot.Next;
  }

  lemma InvStep(s: Sys, e: Env)
    requires Inv(s)
    ensures Inv(Step(s, e))
  {
    var i := LoaderIn(s, e);
    StreamStep(s, e);
    HeldStep(s, e);
    FeedControl.ControlStep(s.feed, FeedEnv(s, e));
    assert InPayload(i) == Offer(s);
    ClockedStep(s.ld, i, s.popped, Offer(s), s.wire);
    BootControlStep(s.feed.fb, FlashFeed.BootIn(s.feed, FeedEnv(s, e)));
    DividerStep(s.ld, i);
    LoaderMoves(s.ld, i);
    hide FeedControl.Control, FlashBoot.Next, FlashReader.Wired, XilinxLoader.Next, Clocked, Held, Stream,
      FlashReader.Ready;
  }

  /** Everything just after the reset of the System FPGA. */
  predicate AfterReset(s: Sys) {
    && FlashFeed.AfterReset(s.feed) && s.feed.fb.empty && !s.feed.fb.start
    && !s.feed.fb.noBitstream && !s.feed.fb.noBitstreamD0 && !s.feed.fb.noBitstreamP1
    && s.ld.fsm.Idle? && s.ld.clkDiv == 0 && !s.ld.csrDone && !s.ld.csrError
    && s.popped == [] && s.wire == [] && !s.seen && !s.expired
  }

  /** What one cycle of reset makes of the boot machine, the flash controller and the loader, in
      any states, with an SPI master and a flash at rest. */
  lemma ResetGives(fb: FlashBoot.State, ctl: FlashReader.State, ld: XilinxLoader.State,
                   b: FlashBoot.In, r: FlashReader.In, l: XilinxLoader.In, spi: FlashReader.Spi, chip: Chip)
    requires !b.rstN && !r.rstN && !l.rstN && !spi.busy
    requires KnownSectorSize(chip.sectorSize) && chip.busy == 0 && !chip.wel
    requires chip.rx != [] ==> chip.rx[0] == FAST_READ
    ensures var reader := FlashReader.Reader(FlashReader.Next(ctl, r), spi, chip);
      AfterReset(Sys(FlashFeed.Feed(FlashBoot.Next(fb, b), reader, []), XilinxLoader.Next(ld, l), [], [], false, false))
    ensures XilinxLoader.Next(ld, l).programB
  {
    FlashReader.ResetRests(ctl, r);
    LoaderTiming.RestartedPins(ld, l);
    hide XilinxLoader.Next, FlashReader.Next;
  }

  function Run(s: Sys, es: seq<Env>): (t: Sys)
    requires KnownSectorSize(s.feed.r.chip.sectorSize)
    ensures KnownSectorSize(t.feed.r.chip.sectorSize)
  {
    if es == [] then s
    else
      var before := Run(s, es[..|es| - 1]);
      FlashFeed.GeometryKept(before.feed, FeedEnv(before, es[|es| - 1]));
      Step(before, es[|es| - 1])
  }

  lemma {:induction false} RunInv(s: Sys, es: seq<Env>)
    requires AfterReset(s)
    ensures Inv(Run(s, es))
  {
    if es == [] {
      FeedControl.ControlAtReset(s.feed);
      assert Stream([]) == [];
    } else {
      RunInv(s, es[..|es| - 1]);
      InvStep(Run(s, es[..|es| - 1]), es[|es| - 1]);
    }
  }

  // ---- PROG_B ----

  lemma {:induction false} RunPin(s: Sys, es: seq<Env>)
    requires AfterReset(s)
    ensures LoaderTiming.PinHeld(Run(s, es).ld)
  {
    if es != [] {
      var before := es[..|es| - 1];
      RunPin(s, before);
      LoaderTiming.PinStep(Run(s, before).ld, LoaderIn(Run(s, before), es[|es| - 1]));
    }
    hide XilinxLoader.Next, FlashFeed.Step;
  }

  /** In every boot a bit goes onto the wire only while PROG_B is high, before and after its edge. */
  lemma WireWithProgBHigh(s: Sys, es: seq<Env>, e: Env)
    requires AfterReset(s)
    ensures var t := Run(s, es);
      |Step(t, e).wire| > |t.wire| ==> t.ld.programB && Step(t, e).ld.programB && t.ld.fsm.ClockEdge?
  {
    RunPin(s, es);
    hide Run, AfterReset, XilinxLoader.Next, EdgeBits, LoaderTiming.PinHeld, FlashFeed.Step;
    var t := Run(s, es);
    if EdgeBits(t.ld, XilinxLoader.Next(t.ld, LoaderIn(t, e))) != [] {
      LoaderTiming.EdgeWithPin(t.ld, LoaderIn(t, e));
    }
  }

  // ---- the feed's part of a run ----

  function FeedEnvs(s: Sys, es: seq<Env>): (fs: seq<FlashFeed.Env>)
    requires KnownSectorSize(s.feed.r.chip.sectorSize)
    ensures |fs| == |es|
  {
    if es == [] then []
    else
      var before := es[..|es| - 1];
      FeedEnvs(s, before) + [FeedEnv(Run(s, before), es[|es| - 1])]
  }

  lemma {:induction false} FeedRun(s: Sys, es: seq<Env>)
    requires KnownSectorSize(s.feed.r.chip.sectorSize)
    ensures Run(s, es).feed == FlashFeed.Run(s.feed, FeedEnvs(s, es))
  {
    hide FlashFeed.Step, XilinxLoader.Next;
    if es != [] {
      FeedRun(s, es[..|es| - 1]);
      assert FeedEnvs(s, es)[..|es| - 1] == FeedEnvs(s, es[..|es| - 1]);
    }
  }

  lemma {:induction false} FeedEnvsPrefix(s: Sys, es: seq<Env>, n: nat)
    requires KnownSectorSize(s.feed.r.chip.sectorSize) && n <= |es|
    ensures FeedEnvs(s, es)[..n] == FeedEnvs(s, es[..n])
  {
    hide Run, FeedEnv;
    if n < |es| {
      FeedEnvsPrefix(s, es[..|es| - 1], n);
      assert es[..|es| - 1][..n] == es[..n];
      assert FeedEnvs(s, es)[..|es| - 1][..n] == FeedEnvs(s, es)[..n];
    } else {
      assert es[..n] == es;
    }
  }

  lemma {:induction false} FeedLink(s: Sys, es: seq<Env>, j: nat)
    requires KnownSectorSize(s.feed.r.chip.sectorSize) && j < |es|
    ensures FeedEnvs(s, es)[j].link == es[j].link
  {
    hide Run;
    if j < |es| - 1 {
      FeedLink(s, es[..|es| - 1], j);
    }
  }

  predicate DoneLow(es: seq<Env>) { forall j :: 0 <= j < |es| ==> FlashReader.Connected(es[j].link) }

  /** The first `n` cycles as the feed sees them. */
  lemma FeedView(s: Sys, es: seq<Env>, n: nat)
    requires KnownSectorSize(s.feed.r.chip.sectorSize) && n <= |es|
    ensures Run(s, es[..n]).feed == FlashFeed.Run(s.feed, FeedEnvs(s, es)[..n])
    ensures DoneLow(es[..n]) ==> FlashFeed.DoneLow(FeedEnvs(s, es)[..n])
  {
    hide Run, FlashFeed.Run, FeedEnvs;
    FeedEnvsPrefix(s, es, n);
    FeedRun(s, es[..n]);
    forall j | 0 <= j < n && DoneLow(es[..n])
      ensures FlashReader.Connected(FeedEnvs(s, es[..n])[j].link)
    {
      FeedLink(s, es[..n], j);
    }
  }

  /** In every run, whatever the pins do: at most 0x408001 bytes are handed over, the wire carries
      a prefix of their bits, all of them whenever the loader asks for the next byte; and the
      bytes fetched before DONE first rose, after `n` cycles or later, are the flash's. */
  lemma FlashWire(s: Sys, es: seq<Env>, n: nat)
    requires AfterReset(s) && n <= |es| && DoneLow(es[..n])
    ensures var t := Run(s, es);
      && |t.feed.handed| <= FlashBoot.BITSTREAM_SIZE + 1
      && t.wire <= Bits(t.feed.handed)
      && (t.ld.fsm.ReadFifo? ==> t.wire == Bits(t.feed.handed))
    ensures var handed, early := Run(s, es).feed.handed, FeedControl.Fetched(Run(s, es[..n]).feed);
      && |early| <= FlashBoot.BITSTREAM_SIZE + 1
      && (forall k :: 0 <= k < |handed| && k < |early| ==>
            handed[k] == s.feed.r.chip.mem[FlashBoot.SDB_BITSTREAM_OFFSET + k])
  {
    RunInv(s, es);
    RunInv(s, es[..n]);
    EarlyFetched(s, es, n);
    var t, early := Run(s, es), Run(s, es[..n]);
    hide Run, AfterReset, Inv, FeedControl.Fetched;
    InvWire(t);
    InvWire(early);
  }

  lemma EarlyFetched(s: Sys, es: seq<Env>, n: nat)
    requires KnownSectorSize(s.feed.r.chip.sectorSize) && AfterReset(s) && n <= |es| && DoneLow(es[..n])
    ensures var handed, early := Run(s, es).feed.handed, FeedControl.Fetched(Run(s, es[..n]).feed);
      && FlashBoot.SDB_BITSTREAM_OFFSET + |early| <= FLASH_SIZE
      && (forall k :: 0 <= k < |handed| && k < |early| ==>
            handed[k] == s.feed.r.chip.mem[FlashBoot.SDB_BITSTREAM_OFFSET + k])
  {
    hide Run, FlashFeed.Run, FlashFeed.AfterReset, FeedControl.Fetched, FeedEnvs, DoneLow, FlashFeed.DoneLow;
    FeedRun(s, es);
    FeedView(s, es, n);
    FeedControl.FetchedFaithful(s.feed, FeedEnvs(s, es), n);
    SliceAt(s.feed.r.chip.mem, FlashBoot.SDB_BITSTREAM_OFFSET, FeedControl.Fetched(Run(s, es[..n]).feed));
  }

  lemma SliceAt(mem: Image, o: nat, bytes: seq<Byte>)
    requires o + |bytes| <= FLASH_SIZE && bytes == mem[o..o + |bytes|]
    ensures forall k :: 0 <= k < |bytes| ==> bytes[k] == mem[o + k]
  {
  }

  lemma InvWire(t: Sys)
    requires Inv(t)
    ensures |t.feed.handed| <= FlashBoot.BITSTREAM_SIZE + 1
    ensures |FeedControl.Fetched(t.feed)| <= FlashBoot.BITSTREAM_SIZE + 1
    ensures t.wire <= Bits(t.feed.handed)
    ensures t.ld.fsm.ReadFifo? ==> t.wire == Bits(t.feed.handed)
  {
    hide FlashReader.Orderly, Held, InPhase, BootControl, BeforeStart, Bits, Stream;
    ClockedPrefix(t.ld, t.popped, t.wire);
    BitsPrefix(Stream(t.popped), t.feed.handed);
    assert t.wire <= Bits(t.feed.handed);
  }

  /** Flash round trip: what `program_flash` stored is what a boot loads. For every bitstream of
      at most 0x500000 bytes, if no SPI transfer runs on for `limit` cycles and DONE is low for
      the first `n` cycles, 176 * limit of them at least: the boot gets past the signature in
      that time; data[k] is the k-th byte handed over for all bytes fetched by then; and as long
      as DONE is low it gives up only when the loader has taken 0x408001 bytes, and the wire
      carries a prefix of the bitstream's bits until its end. */
  lemma FlashRoundTrip(c: Chip, data: seq<Byte>, size: nat, s: Sys, es: seq<Env>, n: nat, limit: nat)
    returns (m: nat)
    requires Flasher.Usable(c) && Flasher.Fits(Flasher.BITSTREAM_BASE, data, size) && size <= 0x500000
    requires AfterReset(s) && s.feed.r.chip.mem == FlashProgramming.AfterProgramFlash(c.(rx := []), data, size).mem
    requires FeedControl.DECISION_STEPS * limit <= n <= |es| && DoneLow(es[..n])
    requires FeedControl.Prompt(s.feed, FeedEnvs(s, es), limit)
    ensures m <= FeedControl.DECISION_STEPS * limit && FeedControl.Passed(Run(s, es[..m]).feed, true)
    ensures var handed, early := Run(s, es).feed.handed, |FeedControl.Fetched(Run(s, es[..n]).feed)|;
      forall k :: 0 <= k < |handed| && k < early && k < size ==> handed[k] == data[k]
    ensures var t := Run(s, es[..n]);
      && (t.feed.fb.fsm.NoBitstream? ==> |t.feed.handed| == FlashBoot.BITSTREAM_SIZE + 1)
      && (|t.feed.handed| <= size ==> t.wire <= Bits(data[..size]))
  {
    FlashProgramming.FlashContents(c, data, size);
    var mem := s.feed.r.chip.mem;
    hide FlashProgramming.AfterProgramFlash, Run, AfterReset, Bits, Flasher.Fits, Flasher.Usable, FeedControl.Fetched,
      FeedControl.Prompt, FeedEnvs, FlashFeed.SignatureAt, DoneLow, FeedControl.Passed;
    SignatureStored(mem);
    StoredByte(mem, data, size);
    m := PassesInTime(s, es, n, limit);
    FlashWire(s, es, n);
    EarlyWire(s, es[..n], data, size);
  }

  /** While DONE is low. */
  lemma EarlyWire(s: Sys, es: seq<Env>, data: seq<Byte>, size: nat)
    requires AfterReset(s) && DoneLow(es) && FlashFeed.SignatureAt(s.feed.r.chip.mem, 4) && size <= |data|
    requires var mem := s.feed.r.chip.mem;
      size <= 0x500000 && forall k :: 0 <= k < size ==> mem[FlashBoot.SDB_BITSTREAM_OFFSET + k] == data[k]
    ensures var t := Run(s, es);
      && (t.feed.fb.fsm.NoBitstream? ==> |t.feed.handed| == FlashBoot.BITSTREAM_SIZE + 1)
      && (|t.feed.handed| <= size ==> t.wire <= Bits(data[..size]))
  {
    assert KnownSectorSize(s.feed.r.chip.sectorSize);
    hide Run, AfterReset, Bits, FeedControl.Fetched, FlashFeed.SignatureAt, DoneLow;
    GivesUpLate(s, es);
    assert es[..|es|] == es;
    FlashWire(s, es, |es|);
    var t := Run(s, es);
    HandedIsFetched(t.feed);
    if |t.feed.handed| <= size {
      assert t.feed.handed <= data[..size];
      BitsPrefix(t.feed.handed, data[..size]);
    }
  }

  /** Boot, reprogram, boot: after any boot with DONE low the flash can be reprogrammed as it is,
      and then booted again. */
  lemma BootReprogramBoot(s: Sys, es: seq<Env>, data: seq<Byte>, size: nat)
    requires AfterReset(s) && DoneLow(es) && Flasher.Usable(s.feed.r.chip)
    requires Flasher.Fits(Flasher.BITSTREAM_BASE, data, size) && size <= 0x500000
    ensures Flasher.Usable(Run(s, es).feed.r.chip)
    ensures var t := FlashProgramming.AfterProgramFlash(Run(s, es).feed.r.chip.(rx := []), data, size);
      Flasher.Usable(t) && AfterReset(s.(feed := s.feed.(r := s.feed.r.(chip := t))))
  {
    assert es[..|es|] == es && FeedEnvs(s, es)[..|es|] == FeedEnvs(s, es);
    FeedView(s, es, |es|);
    FlashFeed.BootOnlyReads(s.feed, FeedEnvs(s, es));
    hide Run, FlashFeed.Run, FeedEnvs, Flasher.Fits, FlashProgramming.AfterProgramFlash;
    FlashProgramming.FlashContents(Run(s, es).feed.r.chip, data, size);
  }

  lemma HandedIsFetched(f: FlashFeed.Feed)
    ensures f.handed <= FeedControl.Fetched(f)
  {
  }

  lemma StoredByte(mem: Image, data: seq<Byte>, size: nat)
    requires size <= |data| && size <= 0x500000
    requires mem[FlashBoot.SDB_BITSTREAM_OFFSET..FlashBoot.SDB_BITSTREAM_OFFSET + size] == data[..size]
    ensures forall k :: 0 <= k < size ==> mem[FlashBoot.SDB_BITSTREAM_OFFSET + k] == data[k]
  {
    var o := FlashBoot.SDB_BITSTREAM_OFFSET;
    forall k | 0 <= k < size
      ensures mem[o + k] == data[k]
    {
      assert mem[o..o + size][k] == data[..size][k];
    }
  }

  lemma PassesInTime(s: Sys, es: seq<Env>, n: nat, limit: nat) returns (m: nat)
    requires AfterReset(s) && FlashFeed.SignatureAt(s.feed.r.chip.mem, 4)
    requires FeedControl.DECISION_STEPS * limit <= n <= |es| && DoneLow(es[..n])
    requires FeedControl.Prompt(s.feed, FeedEnvs(s, es), limit)
    ensures m <= FeedControl.DECISION_STEPS * limit && FeedControl.Passed(Run(s, es[..m]).feed, true)
  {
    assert KnownSectorSize(s.feed.r.chip.sectorSize);
    hide Run, FlashFeed.Run, FeedEnvs, DoneLow, FlashFeed.DoneLow, FeedControl.Prompt, FeedControl.Passed,
      FlashFeed.SignatureAt, FlashFeed.AfterReset;
    FeedView(s, es, n);
    m := FeedControl.SignatureDecides(s.feed, FeedEnvs(s, es), limit, n);
    FeedView(s, es, m);
  }

  /** With the right signature in the flash and DONE low, the only reason to give up is the
      byte limit. */
  lemma GivesUpLate(s: Sys, es: seq<Env>)
    requires AfterReset(s) && DoneLow(es) && FlashFeed.SignatureAt(s.feed.r.chip.mem, 4)
    ensures var f := Run(s, es).feed; f.fb.fsm.NoBitstream? ==> |f.handed| == FlashBoot.BITSTREAM_SIZE + 1
  {
    assert KnownSectorSize(s.feed.r.chip.sectorSize);
    hide Run, FlashFeed.Run, FlashFeed.AfterReset, FlashFeed.SignatureAt, FlashFeed.Synchronised,
      FlashFeed.Faithful, FeedEnvs;
    assert es[..|es|] == es && FeedEnvs(s, es)[..|es|] == FeedEnvs(s, es);
    FeedView(s, es, |es|);
    FlashFeed.FeedFaithful(s.feed, FeedEnvs(s, es));
  }

  lemma HeaderSignature()
    ensures Flasher.SDB_HEADER[..4] == FlashBoot.SDB_SIGNATURE
  {
    assert Flasher.SDB_HEADER[..4] == Flasher.SDB_MAGIC;
  }

  lemma SignatureStored(mem: Image)
    requires mem[Flasher.SDB_BASE..Flasher.SDB_BASE + |Flasher.SDB_HEADER|] == Flasher.SDB_HEADER
    ensures FlashFeed.SignatureAt(mem, 4)
  {
    var stored := mem[Flasher.SDB_BASE..Flasher.SDB_BASE + |Flasher.SDB_HEADER|];
    assert mem[Flasher.SDB_BASE..Flasher.SDB_BASE + 4] == stored[..4];
    HeaderSignature();
  }
}
