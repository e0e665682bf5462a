/** How a boot from the flash ends: what BOOT_DONE says about the Application FPGA. */
module FlashOutcome {
  import opened Bytes
  import opened FlashPath
  import opened LoaderTiming
  import opened Serialiser
  import FlashBoot
  import FlashFeed
  import FlashReader
  import FeedControl
  import HostPath
  import NorFlash
  import XilinxLoader

  // ---- the loader's flags, with DONE and WAIT_INIT remembered ----

  predicate LoaderFlags(s: XilinxLoader.State, seen: bool, expired: bool) {
    && HostPath.Honest(s, seen)
    && (s.csrError ==> s.csrDone && expired)
    && (s.csrDone ==> seen || expired)
    && !s.fsm.WaitDone? && (s.fsm.OutputBit? || s.fsm.ClockEdge? ==> !s.dLast)
  }

  /** The flash path never marks an entry as the last one. */
  lemma NeverWaitsForDone(s: XilinxLoader.State, i: XilinxLoader.In)
    requires i.rstN && !i.swrst && !i.dlast && !s.fsm.WaitDone? && (s.fsm.OutputBit? || s.fsm.ClockEdge? ==> !s.dLast)
    ensures var t := XilinxLoader.Next(s, i);
      !t.fsm.WaitDone? && (t.fsm.OutputBit? || t.fsm.ClockEdge? ==> !t.dLast)
  {
    if XilinxLoader.Beginning(s.fsm) {
      BeginTargets(s, i);
    } else if s.fsm.ReadFifo? {
      PopTarget(s, i);
    } else if s.fsm.ReadFifo2? {
      LatchFields(s, i);
    } else if s.fsm.OutputBit? {
      OutputFields(s, i);
    } else if s.fsm.ClockEdge? {
      EdgeFields(s, i);
    } else {
      FinishTargets(s, i);
    }
  }

  lemma PopTarget(s: XilinxLoader.State, i: XilinxLoader.In)
    requires i.rstN && !i.swrst && s.fsm.ReadFifo?
    ensures var f := XilinxLoader.Next(s, i).fsm; if i.empty then f.ReadFifo? else f.ReadFifo2?
  {
  }

  lemma LoaderFlagsStep(s: XilinxLoader.State, i: XilinxLoader.In, seen: bool, expired: bool)
    requires LoaderFlags(s, seen, expired) && i.rstN && !i.swrst && !i.dlast
    ensures LoaderFlags(XilinxLoader.Next(s, i), HostPath.SeenAfter(s, i, seen),
              !Starting(s, i) && (expired || Expires(s, i)))
  {
    HostPath.HonestStep(s, i, seen);
    FlagMoves(s, i);
    NeverWaitsForDone(s, i);
    hide XilinxLoader.Next;
  }

  /** After its timeout the loader is back in IDLE, or carries on because INIT_B fell in the very
      cycle of the timeout; both flags are up. */
  predicate TimedOut(s: XilinxLoader.State) {
    s.csrDone && s.csrError && (s.fsm.Idle? || s.fsm.WaitInit2? || s.fsm.ReadFifo?)
  }

  lemma TimedOutStep(s: XilinxLoader.State, i: XilinxLoader.In)
    requires i.rstN && !i.swrst && !i.start && (i.empty || !XilinxLoader.CsrRd(s, i))
    requires TimedOut(s) || Expires(s, i)
    ensures TimedOut(XilinxLoader.Next(s, i))
  {
    FlagMoves(s, i);
    if s.fsm.ReadFifo? {
      PopTarget(s, i);
    } else {
      BeginTargets(s, i);
    }
    hide XilinxLoader.Next;
  }

  /** Everything a run establishes about the flags. */
  predicate Flags(s: Sys) {
    && LoaderFlags(s.ld, s.seen, s.expired)
    && (BeforeStart(s.feed.fb) ==> !s.ld.csrDone && !s.expired)
    && (s.expired && !FlashBoot.Over(s.feed.fb.fsm) ==> TimedOut(s.ld))
    && (s.feed.fb.fsm.BootDone? ==> s.seen || s.expired)
    && (!s.feed.fb.fsm.NoBitstream? ==> Unreported(s.feed.fb))
  }

  /** No no-bitstream pulse has come out, and none is due. */
  predicate Unreported(fb: FlashBoot.State) { !fb.noBitstream && !fb.noBitstreamD0 && !fb.noBitstreamP1 }

  /** A boot ends well exactly when the loader takes a byte with its done flag up. */
  lemma BootEnds(fb: FlashBoot.State, i: FlashBoot.In)
    requires i.rstN && i.enable
    ensures var t := FlashBoot.Next(fb, i);
      && (t.fsm.BootDone? <==> fb.fsm.BootDone? || (fb.fsm.LoadBsByte? && i.rd && i.done))
      && (fb.fsm.NoBitstream? ==> t.fsm.NoBitstream?)
  {
    hide FlashBoot.Next;
    if FlashBoot.Checking(fb.fsm) {
      FlashBoot.CheckMoves(fb, i);
    } else if FlashBoot.Selecting(fb.fsm) {
      SelectNeverEnds(fb, i);
    } else {
      LoadEnds(fb, i);
    }
  }

  lemma LoadEnds(fb: FlashBoot.State, i: FlashBoot.In)
    requires i.rstN && i.enable && (FlashBoot.Loading(fb.fsm) || FlashBoot.Over(fb.fsm))
    ensures var t := FlashBoot.Next(fb, i);
      && (t.fsm.BootDone? <==> fb.fsm.BootDone? || (fb.fsm.LoadBsByte? && i.rd && i.done))
      && (fb.fsm.NoBitstream? ==> t.fsm.NoBitstream?)
  {
    match fb.fsm
    case FetchBsByte =>
    case LoadBsByte => FlashBoot.LoadMoves(fb, i);
    case NoBitstream =>
    case BootDone =>
  }

  lemma SelectNeverEnds(fb: FlashBoot.State, i: FlashBoot.In)
    requires i.rstN && i.enable && FlashBoot.Selecting(fb.fsm)
    ensures !FlashBoot.Next(fb, i).fsm.BootDone?
  {
    match fb.fsm
    case Startup =>
    case SelectSdb =>
    case WaitSelectSdb =>
    case SelectBitstream =>
    case WaitSelectBitstream =>
  }

  lemma FlagsStep(s: Sys, e: Env)
    requires Inv(s) && Flags(s)
    ensures Flags(Step(s, e))
  {
    var i, j := LoaderIn(s, e), FlashFeed.BootIn(s.feed, FeedEnv(s, e));
    hide FlashBoot.Next, XilinxLoader.Next, HostPath.Honest, Clocked, FeedControl.Control, Held, InPhase;
    LoaderFlagsStep(s.ld, i, s.seen, s.expired);
    FlagMoves(s.ld, i);
    BootControlStep(s.feed.fb, j);
    BootEnds(s.feed.fb, j);
    FlashBoot.ReportMoves(s.feed.fb, j);
    if (s.expired || Expires(s.ld, i)) && !FlashBoot.Over(s.feed.fb.fsm) {
      if !(s.feed.fb.fsm.LoadBsByte? && XilinxLoader.CsrRd(s.ld, i)) {
        TimedOutStep(s.ld, i);
      }
    }
  }

  lemma {:induction false} RunFlags(s: Sys, es: seq<Env>)
    requires AfterReset(s)
    ensures Inv(FlashPath.Run(s, es)) && Flags(FlashPath.Run(s, es))
  {
    RunInv(s, es);
    if es != [] {
      RunInv(s, es[..|es| - 1]);
      RunFlags(s, es[..|es| - 1]);
      FlagsStep(FlashPath.Run(s, es[..|es| - 1]), es[|es| - 1]);
    }
  }

  /** In every run from reset: BOOT_DONE means that DONE was sampled high since START, or that
      WAIT_INIT ran out; and no no-bitstream pulse has come out. */
  lemma BootDoneMeans(s: Sys, es: seq<Env>)
    requires AfterReset(s) && FlashPath.Run(s, es).feed.fb.fsm.BootDone?
    ensures var t := FlashPath.Run(s, es); (t.seen || t.expired) && Unreported(t.feed.fb)
  {
    RunFlags(s, es);
    hide FlashPath.Run, Inv, AfterReset;
  }

  /** The cycle in which a boot ends in BOOT_DONE, in any run from reset: the loader takes a byte
      with its done flag up; its error flag, which is not connected, tells the two reasons apart:
      it is up exactly when WAIT_INIT has run out, and else DONE was sampled high. */
  lemma BootDoneExactly(s: Sys, es: seq<Env>, e: Env)
    requires AfterReset(s) && !FlashBoot.Over(FlashPath.Run(s, es).feed.fb.fsm)
    ensures var t := FlashPath.Run(s, es);
      Step(t, e).feed.fb.fsm.BootDone? <==>
        t.feed.fb.fsm.LoadBsByte? && XilinxLoader.CsrRd(t.ld, LoaderIn(t, e)) && t.ld.csrDone
    ensures var t := FlashPath.Run(s, es);
      Step(t, e).feed.fb.fsm.BootDone? ==> (t.ld.csrError <==> t.expired) && (!t.expired ==> t.seen)
  {
    RunFlags(s, es);
    var t := FlashPath.Run(s, es);
    BootEnds(t.feed.fb, FlashFeed.BootIn(t.feed, FeedEnv(t, e)));
    hide FlashPath.Run, Inv, AfterReset, FlashBoot.Next, XilinxLoader.Next;
  }

  // ---- the same in terms of INIT_B ----

  /** Cycles of WAIT_INIT in which INIT_B was sampled high. It is left at the first low sample, or
      after its timeout. */
  function HighInInit(s: Sys, es: seq<Env>): nat
    requires NorFlash.KnownSectorSize(s.feed.r.chip.sectorSize)
  {
    if es == [] then 0
    else
      var before, e := es[..|es| - 1], es[|es| - 1];
      HighInInit(s, before) + if FlashPath.Run(s, before).ld.fsm.WaitInit? && e.initB then 1 else 0
  }

  /** WAIT_INIT counts them; once it is over they say whether it has run out. */
  predicate InitCounted(s: Sys, high: nat) {
    && (BeforeStart(s.feed.fb) || s.ld.fsm.ExtendProg? ==> high == 0)
    && if s.ld.fsm.WaitInit? then s.ld.timeout <= 200000 && high == 200000 - s.ld.timeout && !s.expired
       else s.expired <==> high >= 200000
  }

  lemma InitCountedStep(s: Sys, e: Env, high: nat)
    requires Inv(s) && Flags(s) && InitCounted(s, high)
    ensures InitCounted(Step(s, e), high + if s.ld.fsm.WaitInit? && e.initB then 1 else 0)
  {
    var i := LoaderIn(s, e);
    hide FlashBoot.Next, XilinxLoader.Next, HostPath.Honest, Clocked, FeedControl.Control, Held, InPhase, Unreported;
    BootControlStep(s.feed.fb, FlashFeed.BootIn(s.feed, FeedEnv(s, e)));
    InitTargets(s.ld, i);
  }

  /** Where WAIT_INIT is entered and left. */
  lemma InitTargets(s: XilinxLoader.State, i: XilinxLoader.In)
    requires i.rstN && !i.swrst
    ensures var t := XilinxLoader.Next(s, i);
      && (t.fsm.ExtendProg? ==> s.fsm.ExtendProg? || Starting(s, i))
      && (t.fsm.WaitInit? ==>
            if s.fsm.WaitInit? then i.initB && s.timeout > 0 && t.timeout == s.timeout - 1
            else s.fsm.ExtendProg? && t.timeout == 200000)
      && (s.fsm.WaitInit? && !t.fsm.WaitInit? && s.timeout > 0 ==> !i.initB)
  {
    hide XilinxLoader.Next;
    if XilinxLoader.Shifting(s.fsm) {
      ShiftTargets(s, i);
    } else if XilinxLoader.Beginning(s.fsm) {
      BeginTargets(s, i);
      if s.fsm.ExtendProg? {
        ExtendProgStep(s, i);
      } else if s.fsm.WaitInit? {
        WaitInitStep(s, i);
        WaitInitOutcome(s, i);
      }
    } else {
      FinishTargets(s, i);
    }
  }

  lemma {:induction false} RunInitCounted(s: Sys, es: seq<Env>)
    requires AfterReset(s)
    ensures InitCounted(FlashPath.Run(s, es), HighInInit(s, es))
  {
    if es != [] {
      var before := es[..|es| - 1];
      RunInitCounted(s, before);
      RunFlags(s, before);
      InitCountedStep(FlashPath.Run(s, before), es[|es| - 1], HighInInit(s, before));
    }
  }

  /** When a boot ends in BOOT_DONE, in any run from reset: the error flag is up if and only if
      INIT_B was sampled high in the first 200000 cycles of WAIT_INIT. */
  lemma BootDoneByInit(s: Sys, es: seq<Env>, e: Env)
    requires AfterReset(s) && !FlashBoot.Over(FlashPath.Run(s, es).feed.fb.fsm)
    requires Step(FlashPath.Run(s, es), e).feed.fb.fsm.BootDone?
    ensures FlashPath.Run(s, es).ld.csrError <==> HighInInit(s, es) >= 200000
  {
    BootDoneExactly(s, es, e);
    RunInitCounted(s, es);
    RunFlags(s, es);
    hide FlashPath.Run, HighInInit, Inv, AfterReset, Step;
  }

  // ---- an Application FPGA that never releases INIT_B ----

  /** Cycles until the loader has given up on INIT_B. */
  function InitLeft(s: XilinxLoader.State): nat {
    if s.fsm.ExtendProg? then s.timeout + 200002 else if s.fsm.WaitInit? then s.timeout + 1 else 0
  }

  /** Nothing is sent, and from START on the loader heads for its timeout. */
  predicate Doomed(s: Sys) {
    && s.popped == [] && s.wire == []
    && (BeforeStart(s.feed.fb) || s.feed.fb.fsm.NoBitstream?
        || (s.ld.fsm.ExtendProg? && s.ld.timeout <= 1000)
        || (s.ld.fsm.WaitInit? && s.ld.timeout <= 200000)
        || (s.ld.fsm.Idle? && TimedOut(s.ld)))
  }

  lemma DoomedLoader(s: XilinxLoader.State, i: XilinxLoader.In)
    requires i.rstN && !i.swrst && i.initB && (s.fsm.ExtendProg? || s.fsm.WaitInit?)
    requires s.timeout <= if s.fsm.ExtendProg? then 1000 else 200000
    ensures var t := XilinxLoader.Next(s, i);
      && InitLeft(t) == InitLeft(s) - 1 && EdgeBits(s, t) == []
      && ((t.fsm.ExtendProg? && t.timeout <= 1000)
          || (t.fsm.WaitInit? && t.timeout <= 200000)
          || (t.fsm.Idle? && TimedOut(t)))
  {
    match s.fsm
    case ExtendProg => ExtendProgStep(s, i);
    case WaitInit =>
    NoEdgeBeginning(s, i);
  }

  lemma DoomedIdle(s: XilinxLoader.State, i: XilinxLoader.In)
    requires i.rstN && !i.swrst && s.fsm.Idle?
    ensures var t := XilinxLoader.Next(s, i);
      && EdgeBits(s, t) == []
      && if i.start then t.fsm.ExtendProg? && t.timeout == 1000
         else t.fsm.Idle? && t.csrDone == s.csrDone && t.csrError == s.csrError
  {
    NoEdgeBeginning(s, i);
  }

  lemma DoomedStep(s: Sys, e: Env)
    requires Inv(s) && Flags(s) && Doomed(s) && e.initB
    requires !s.feed.fb.fsm.NoBitstream?
    ensures Doomed(Step(s, e))
    ensures s.feed.fb.fsm.LoadBsByte? ==>
      var t := Step(s, e);
      if s.ld.fsm.Idle? then t.feed.fb.fsm.BootDone?
      else t.feed.fb.fsm.LoadBsByte? && InitLeft(t.ld) == InitLeft(s.ld) - 1
  {
    var i, j := LoaderIn(s, e), FlashFeed.BootIn(s.feed, FeedEnv(s, e));
    hide FlashBoot.Next, XilinxLoader.Next, HostPath.Honest, Clocked, FeedControl.Control, Held, InPhase, EdgeBits,
      Unreported, InitLeft;
    BootControlStep(s.feed.fb, j);
    BootEnds(s.feed.fb, j);
    if s.ld.fsm.Idle? {
      DoomedIdle(s.ld, i);
    } else {
      DoomedLoader(s.ld, i);
    }
    if s.feed.fb.fsm.LoadBsByte? {
      FlashBoot.LoadMoves(s.feed.fb, j);
    }
  }

  /** A run with INIT_B sampled high throughout. */
  predicate InitHigh(es: seq<Env>) { forall j :: 0 <= j < |es| ==> es[j].initB }

  lemma {:induction false} RunDoomed(s: Sys, es: seq<Env>)
    requires AfterReset(s) && InitHigh(es)
    ensures Doomed(FlashPath.Run(s, es)) || FlashPath.Run(s, es).feed.fb.fsm.NoBitstream?
  {
    if es != [] {
      var before := es[..|es| - 1];
      RunDoomed(s, before);
      RunFlags(s, before);
      var t := FlashPath.Run(s, before);
      BootEnds(t.feed.fb, FlashFeed.BootIn(t.feed, FeedEnv(t, es[|es| - 1])));
      if !t.feed.fb.fsm.NoBitstream? {
        DoomedStep(t, es[|es| - 1]);
      }
    }
  }

  /** The boot has ended, the loader is timed out and idle. */
  predicate Ended(s: Sys) {
    s.feed.fb.fsm.BootDone? && s.ld.fsm.Idle? && TimedOut(s.ld) && s.wire == [] && s.popped == []
  }

  lemma EndedStep(s: Sys, e: Env)
    requires Inv(s) && (Ended(s) || (Doomed(s) && s.feed.fb.fsm.LoadBsByte? && s.ld.fsm.Idle?))
    ensures Ended(Step(s, e))
  {
    hide FlashBoot.Next, XilinxLoader.Next, Clocked, FeedControl.Control, Held, InPhase, EdgeBits;
    BootEnds(s.feed.fb, FlashFeed.BootIn(s.feed, FeedEnv(s, e)));
    DoomedIdle(s.ld, LoaderIn(s, e));
    assert s.wire + [] == s.wire;
  }

  /** The first byte is on offer and the timeout is `left` cycles away at most, or it is over. */
  predicate Ending(s: Sys, left: int) {
    Ended(s) || (s.feed.fb.fsm.LoadBsByte? && Doomed(s) && InitLeft(s.ld) <= left)
  }

  lemma EndingStep(s: Sys, e: Env, left: int)
    requires Inv(s) && Flags(s) && Ending(s, left) && e.initB
    ensures Ending(Step(s, e), left - 1)
  {
    hide Inv, Flags, InitLeft, Step, Doomed;
    if Ended(s) || s.ld.fsm.Idle? {
      EndedStep(s, e);
    } else {
      DoomedStep(s, e);
    }
  }

  lemma {:induction false} CountDown(s: Sys, es: seq<Env>, m: nat, left: int)
    requires AfterReset(s) && InitHigh(es) && m <= |es| && Ending(FlashPath.Run(s, es[..m]), left)
    ensures Ending(FlashPath.Run(s, es), left - (|es| - m))
  {
    hide Ending, Step, Inv, Flags;
    if m == |es| {
      assert es[..m] == es;
    } else {
      var before := es[..|es| - 1];
      assert before[..m] == es[..m];
      CountDown(s, before, m, left);
      RunFlags(s, before);
      EndingStep(FlashPath.Run(s, before), es[|es| - 1], left - (|before| - m));
    }
  }

  /** With the right signature stored, DONE low, INIT_B never sampled low and no SPI transfer
      running on for `limit` cycles, every boot ends in BOOT_DONE within 263 * limit + 201003
      cycles: with both loader flags up, not one bit sent and no no-bitstream pulse. */
  lemma InitNeverFalls(s: Sys, es: seq<Env>, limit: nat)
    requires AfterReset(s) && InitHigh(es) && DoneLow(es) && FlashFeed.SignatureAt(s.feed.r.chip.mem, 4)
    requires FeedControl.Prompt(s.feed, FeedEnvs(s, es), limit)
    requires |es| >= FeedControl.FIRST_BYTE_STEPS * limit + 201003
    ensures var t := FlashPath.Run(s, es);
      && t.feed.fb.fsm.BootDone? && t.ld.csrDone && t.ld.csrError && t.expired
      && t.wire == [] && Unreported(t.feed.fb)
  {
    assert NorFlash.KnownSectorSize(s.feed.r.chip.sectorSize);
    hide FlashPath.Run, AfterReset, Inv, Flags, InitLeft, Doomed, FeedControl.Prompt, FeedEnvs;
    var m := OfferedInTime(s, es, limit);
    OfferedEnding(s, es[..m]);
    CountDown(s, es, m, 201002);
    RunFlags(s, es);
    EndingFlags(FlashPath.Run(s, es), 201002 - (|es| - m));
  }

  lemma OfferedEnding(s: Sys, es: seq<Env>)
    requires AfterReset(s) && InitHigh(es) && FlashPath.Run(s, es).feed.fb.fsm.LoadBsByte?
    ensures Ending(FlashPath.Run(s, es), 201002)
  {
    RunFlags(s, es);
    RunDoomed(s, es);
    hide FlashPath.Run, AfterReset, Flags, Clocked, FeedControl.Control, Held, InPhase;
  }

  lemma EndingFlags(t: Sys, left: int)
    requires Flags(t) && Ending(t, left) && left < 0
    ensures t.feed.fb.fsm.BootDone? && t.ld.csrDone && t.ld.csrError && t.expired
    ensures t.wire == [] && Unreported(t.feed.fb)
  {
  }

  lemma OfferedInTime(s: Sys, es: seq<Env>, limit: nat) returns (m: nat)
    requires AfterReset(s) && DoneLow(es) && FlashFeed.SignatureAt(s.feed.r.chip.mem, 4)
    requires FeedControl.Prompt(s.feed, FeedEnvs(s, es), limit)
    requires |es| >= FeedControl.FIRST_BYTE_STEPS * limit
    ensures m <= FeedControl.FIRST_BYTE_STEPS * limit && FlashPath.Run(s, es[..m]).feed.fb.fsm.LoadBsByte?
  {
    assert es[..|es|] == es && FeedEnvs(s, es)[..|es|] == FeedEnvs(s, es);
    FeedView(s, es, |es|);
    m := FeedControl.FirstByteOffered(s.feed, FeedEnvs(s, es), limit);
    FeedView(s, es, m);
    hide FlashPath.Run, FlashFeed.Run, FeedEnvs, AfterReset;
  }

  /** Such runs exist: transfers that end in the cycle after their start, pins that never move. */
  lemma InitTimeoutBoot(s: Sys) returns (es: seq<Env>)
    requires AfterReset(s) && FlashFeed.SignatureAt(s.feed.r.chip.mem, 4)
    ensures InitHigh(es) && DoneLow(es)
    ensures var t := FlashPath.Run(s, es);
      t.feed.fb.fsm.BootDone? && t.ld.csrError && t.wire == [] && Unreported(t.feed.fb)
  {
    var e := Env(true, false, (0, 0, 0), FlashReader.Link(true, 0, false, 0, s.feed.r.chip));
    es := seq(FeedControl.FIRST_BYTE_STEPS + 201003, _ => e);
    AlwaysPrompt(s, es);
    InitNeverFalls(s, es, 1);
    hide FlashPath.Run;
  }

  lemma AlwaysPrompt(s: Sys, es: seq<Env>)
    requires NorFlash.KnownSectorSize(s.feed.r.chip.sectorSize) && forall j :: 0 <= j < |es| ==> es[j].link.finish
    ensures FeedControl.Prompt(s.feed, FeedEnvs(s, es), 1)
  {
    hide FlashPath.Run, FlashFeed.Run, FeedEnvs;
    var fs := FeedEnvs(s, es);
    forall j: nat | j + 1 <= |fs|
      ensures FeedControl.Served(s.feed, fs, j, 1)
    {
      FeedLink(s, es, j);
      assert !FeedControl.Stalled(FlashFeed.Run(s.feed, fs[..j]), fs[j]);
    }
  }

  // ---- a reset while the Application FPGA is configured ----

  /** DONE is high throughout, and the Application FPGA does not use the flash. */
  predicate Configured(es: seq<Env>, line: Byte) {
    forall j :: 0 <= j < |es| ==> FlashReader.Detached(es[j].link, line)
  }

  /** The flash is out of reach, so the boot gives up in time whatever it holds; nothing is
      handed over and nothing is sent. */
  lemma ResetWhileConfigured(s: Sys, es: seq<Env>, limit: nat, line: Byte) returns (m: nat)
    requires AfterReset(s) && Configured(es, line)
    requires FeedControl.Prompt(s.feed, FeedEnvs(s, es), limit) && |es| >= FeedControl.DECISION_STEPS * limit
    ensures m <= FeedControl.DECISION_STEPS * limit && FeedControl.Passed(FlashPath.Run(s, es[..m]).feed, false)
    ensures FlashPath.Run(s, es).feed.handed == [] && FlashPath.Run(s, es).wire == []
  {
    var fs := FeedEnvs(s, es);
    forall j | 0 <= j < |fs|
      ensures FlashReader.Detached(fs[j].link, line)
    {
      FeedLink(s, es, j);
    }
    m := FeedControl.GivesUpBlind(s.feed, fs, limit, line);
    FeedView(s, es, m);
    FeedRun(s, es);
    RunInv(s, es);
    hide FlashPath.Run, FlashFeed.Run, AfterReset, FeedEnvs, FeedControl.Prompt;
    InvWire(FlashPath.Run(s, es));
  }
}
