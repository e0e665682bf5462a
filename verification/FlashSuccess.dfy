/** How a boot from the flash succeeds: from a DONE that rises at a bit output, through the startup
    clocks, to BOOT_DONE in bounded time. */
module FlashSuccess {
  import opened Bytes
  import opened FlashPath
  import opened FlashOutcome
  import Serialiser
  import LoaderTiming
  import FlashBoot
  import FlashFeed
  import FlashReader
  import FeedControl
  import HostPath
  import NorFlash
  import XilinxLoader

  /** Cycles until the loader is back in IDLE, with the divider of the flash path. */
  function StartupLeft(s: XilinxLoader.State): nat {
    if s.fsm.GotDone? then 4102
    else if LoaderTiming.StartingUp(s.fsm) && s.startupCount <= 1024 then
      2 * (2 * (1024 - s.startupCount) + if s.fsm.StartupCclk0? then 2 else 1) + if s.tick then 0 else 1
    else 0
  }

  /** The loader has found DONE high: it ends by itself, with success. */
  predicate Succeeding(s: XilinxLoader.State) {
    || s.fsm.GotDone?
    || (s.csrDone && !s.csrError
        && (s.fsm.Idle? || (LoaderTiming.StartingUp(s.fsm) && s.startupCount <= 1024)))
  }

  lemma SucceedingStep(s: XilinxLoader.State, i: XilinxLoader.In)
    requires Succeeding(s) && i.rstN && !i.swrst && !i.start && i.startup && i.clkDiv == 1
    requires s.clkDiv <= 1 && (s.tick <==> s.clkDiv == 0)
    ensures var t := XilinxLoader.Next(s, i);
      Succeeding(t) && StartupLeft(t) <= Max(StartupLeft(s) - 1, 0) && (s.fsm.Idle? ==> t.fsm.Idle?)
  {
    if s.fsm.Idle? {
      IdleStep(s, i);
    } else if s.fsm.GotDone? {
      GotDoneStep(s, i);
    } else {
      DividerStep(s, i);
      PulseStep(s, i);
    }
    hide XilinxLoader.Next;
  }

  lemma GotDoneStep(s: XilinxLoader.State, i: XilinxLoader.In)
    requires s.fsm.GotDone? && i.rstN && !i.swrst && i.startup
    ensures var t := XilinxLoader.Next(s, i);
      t.fsm.StartupCclk0? && t.startupCount == 0 && t.csrDone && !t.csrError
  {
    hide XilinxLoader.BeginFsm, XilinxLoader.ShiftFsm, XilinxLoader.DivideClock;
  }

  /** Half a startup clock for every tick. */
  lemma PulseStep(s: XilinxLoader.State, i: XilinxLoader.In)
    requires LoaderTiming.StartingUp(s.fsm) && i.rstN && !i.swrst
    ensures var t := XilinxLoader.Next(s, i);
      && t.csrDone == s.csrDone && t.csrError == s.csrError
      && if !s.tick then t.fsm == s.fsm && t.startupCount == s.startupCount
         else if s.fsm.StartupCclk0? then t.fsm.StartupCclk1? && t.startupCount == s.startupCount
         else t.startupCount == (s.startupCount + 1) % 0x200000
              && t.fsm == if s.startupCount == 1024 then XilinxLoader.Idle else XilinxLoader.StartupCclk0
  {
    hide XilinxLoader.BeginFsm, XilinxLoader.ShiftFsm, XilinxLoader.DivideClock;
    match s.fsm
    case StartupCclk0 =>
    case StartupCclk1 =>
  }

  lemma IdleStep(s: XilinxLoader.State, i: XilinxLoader.In)
    requires i.rstN && !i.swrst && !i.start && s.fsm.Idle?
    ensures var t := XilinxLoader.Next(s, i); t.fsm.Idle? && t.csrDone == s.csrDone && t.csrError == s.csrError
  {
    hide XilinxLoader.ShiftFsm, XilinxLoader.FinishFsm, XilinxLoader.DivideClock;
  }

  /** A byte is on offer, or the boot has ended well. */
  predicate Offered(f: FlashBoot.Fsm) { f.LoadBsByte? || f.BootDone? }

  /** The boot machine has only to offer one more byte. */
  ghost predicate Finishing(s: Sys) {
    Inv(s) && Succeeding(s.ld) && (Offered(s.feed.fb.fsm) || s.feed.fb.fsm.FetchBsByte?)
  }

  lemma FinishingStep(s: Sys, e: Env)
    requires Finishing(s)
    ensures var t := Step(s, e);
      && Finishing(t)
      && StartupLeft(t.ld) <= Max(StartupLeft(s.ld) - 1, 0)
      && (s.ld.fsm.Idle? ==> t.ld.fsm.Idle?)
      && (Offered(s.feed.fb.fsm) ==> Offered(t.feed.fb.fsm))
      && (s.ld.fsm.Idle? && Offered(s.feed.fb.fsm) ==> t.feed.fb.fsm.BootDone?)
  {
    InvStep(s, e);
    NoStart(s);
    hide Inv, StartupLeft, FlashBoot.Next, XilinxLoader.Next, FlashReader.Wired;
    SucceedingStep(s.ld, LoaderIn(s, e));
    LastByte(s.feed.fb, FlashFeed.BootIn(s.feed, FeedEnv(s, e)));
  }

  lemma NoStart(s: Sys)
    requires Inv(s) && (Offered(s.feed.fb.fsm) || s.feed.fb.fsm.FetchBsByte?)
    ensures !s.feed.fb.start && (s.feed.fb.empty <==> !s.feed.fb.fsm.LoadBsByte?)
    ensures s.ld.clkDiv <= 1 && (s.ld.tick <==> s.ld.clkDiv == 0)
  {
    hide FeedControl.Control, Serialiser.Clocked, Serialiser.Stream, Held;
  }

  /** A byte taken with the done flag up is the last one. */
  lemma LastByte(fb: FlashBoot.State, i: FlashBoot.In)
    requires i.rstN && i.enable && (Offered(fb.fsm) || fb.fsm.FetchBsByte?)
    requires i.rd && fb.fsm.LoadBsByte? ==> i.done
    ensures var f := FlashBoot.Next(fb, i).fsm;
      && (Offered(f) || (f.FetchBsByte? && fb.fsm.FetchBsByte?))
      && (fb.fsm.BootDone? || (fb.fsm.LoadBsByte? && i.rd) ==> f.BootDone?)
  {
    hide FlashBoot.Next;
    BootEnds(fb, i);
    if fb.fsm.LoadBsByte? {
      FlashBoot.LoadMoves(fb, i);
    } else if fb.fsm.FetchBsByte? {
      FlashBoot.FetchMoves(fb, i);
    }
  }

  /** From cycle `n` on. */
  lemma {:induction false} RunFinishing(s: Sys, es: seq<Env>, n: nat)
    requires NorFlash.KnownSectorSize(s.feed.r.chip.sectorSize) && n <= |es| && Finishing(Run(s, es[..n]))
    ensures Finishing(Run(s, es))
    ensures StartupLeft(Run(s, es).ld) <= Max(4102 - (|es| - n), 0)
  {
    hide *;
    if n == |es| {
      assert es[..n] == es;
      StartupBound(Run(s, es));
    } else {
      var before := es[..|es| - 1];
      assert before[..n] == es[..n];
      RunFinishing(s, before, n);
      LastStep(s, es);
      FinishingStep(Run(s, before), es[|es| - 1]);
      MaxDrops(StartupLeft(Run(s, before).ld), |before| - n);
    }
  }

  lemma MaxDrops(left: nat, n: nat)
    requires left <= Max(4102 - n, 0)
    ensures Max(left - 1, 0) <= Max(4102 - (n + 1), 0)
  {
  }

  lemma StartupBound(s: Sys)
    ensures StartupLeft(s.ld) <= 4102
    ensures Max(4102, 0) == 4102
  {
  }

  lemma LastStep(s: Sys, es: seq<Env>)
    requires NorFlash.KnownSectorSize(s.feed.r.chip.sectorSize) && es != []
    ensures NorFlash.KnownSectorSize(Run(s, es[..|es| - 1]).feed.r.chip.sectorSize)
    ensures Run(s, es) == Step(Run(s, es[..|es| - 1]), es[|es| - 1])
  {
  }

  lemma {:induction false} StaysOffered(s: Sys, es: seq<Env>, n: nat, m: nat)
    requires NorFlash.KnownSectorSize(s.feed.r.chip.sectorSize) && n <= m <= |es|
    requires Finishing(Run(s, es[..n])) && Offered(Run(s, es[..m]).feed.fb.fsm)
    ensures Offered(Run(s, es).feed.fb.fsm)
  {
    hide *;
    if m == |es| {
      assert es[..m] == es;
    } else {
      var before := es[..|es| - 1];
      assert before[..n] == es[..n] && before[..m] == es[..m];
      StaysOffered(s, before, n, m);
      RunFinishing(s, before, n);
      LastStep(s, es);
      FinishingStep(Run(s, before), es[|es| - 1]);
    }
  }

  const OFFER_STEPS: nat := 29

  /** The next byte is on offer in time. */
  lemma OfferedAgain(s: Sys, es: seq<Env>, n: nat, limit: nat) returns (m: nat)
    requires NorFlash.KnownSectorSize(s.feed.r.chip.sectorSize) && n <= |es| && Finishing(Run(s, es[..n]))
    requires FeedControl.Prompt(s.feed, FeedEnvs(s, es), limit) && n + OFFER_STEPS * limit <= |es|
    ensures n <= m <= n + OFFER_STEPS * limit && Offered(Run(s, es[..m]).feed.fb.fsm)
  {
    hide *;
    var fs := FeedEnvs(s, es);
    FeedView(s, es, n);
    FeedControl.PromptAfter(s.feed, fs, limit, n);
    var k := NotDecided(Run(s, es[..n]), fs[n..], limit);
    m := n + k;
    FeedControl.RunAfter(s.feed, fs, n, m);
    FeedView(s, es, m);
    assert es[..m][..n] == es[..n];
    RunFinishing(s, es[..m], n);
    FinishingStates(Run(s, es[..m]));
  }

  lemma FinishingStates(s: Sys)
    requires Finishing(s)
    ensures FeedControl.Control(s.feed)
    ensures if Offered(s.feed.fb.fsm) then FeedControl.StatesLeft(s.feed.fb.fsm) == 0
            else FeedControl.StatesLeft(s.feed.fb.fsm) == 3
  {
    hide FeedControl.Control;
  }

  lemma NotDecided(s: Sys, fs: seq<FlashFeed.Env>, limit: nat) returns (m: nat)
    requires NorFlash.KnownSectorSize(s.feed.r.chip.sectorSize) && Finishing(s)
    requires FeedControl.Prompt(s.feed, fs, limit) && OFFER_STEPS * limit <= |fs|
    ensures m <= OFFER_STEPS * limit
    ensures FeedControl.StatesLeft(FlashFeed.Run(s.feed, fs[..m]).fb.fsm) == 0
  {
    hide FlashFeed.Run, FeedControl.Prompt, Finishing, FeedControl.Control, FeedControl.Cycles;
    FinishingStates(s);
    var n := OFFER_STEPS * limit;
    FeedControl.CyclesProduct(OFFER_STEPS, limit);
    if FeedControl.Undecided(s.feed, fs, n, 1) {
      FeedControl.StepsPassed(s.feed, fs, limit, OFFER_STEPS, n);
      FetchSteps(s.feed, FlashFeed.Run(s.feed, fs[..n]));
    }
    m :| m <= n && FeedControl.StatesLeft(FlashFeed.Run(s.feed, fs[..m]).fb.fsm) == 0;
  }

  lemma FetchSteps(f: FlashFeed.Feed, g: FlashFeed.Feed)
    requires FeedControl.StatesLeft(f.fb.fsm) <= 3
    ensures FeedControl.StepsLeft(f) <= 115
    ensures FeedControl.StatesLeft(g.fb.fsm) >= 1 ==> FeedControl.StepsLeft(g) >= 87
  {
  }

  /** DONE is high at a bit output, and the boot is not over yet. */
  predicate DoneAtBit(s: Sys, e: Env) {
    s.ld.fsm.OutputBit? && s.ld.tick && e.done && !FlashBoot.Over(s.feed.fb.fsm)
  }

  lemma DoneStarts(s: Sys, e: Env)
    requires Inv(s) && DoneAtBit(s, e)
    ensures Finishing(Step(s, e))
  {
    InvStep(s, e);
    OnlyLoading(s);
    hide Inv, FlashBoot.Next, XilinxLoader.Next, FlashReader.Wired;
    Serialiser.OutputFields(s.ld, LoaderIn(s, e));
    LastByte(s.feed.fb, FlashFeed.BootIn(s.feed, FeedEnv(s, e)));
  }

  /** While bits go out the boot machine is fetching, or has a byte on offer. */
  lemma OnlyLoading(s: Sys)
    requires Inv(s) && s.ld.fsm.OutputBit? && !FlashBoot.Over(s.feed.fb.fsm)
    ensures FlashBoot.Loading(s.feed.fb.fsm)
  {
    hide FlashReader.Orderly, Held, Serialiser.MidEntry;
    NotEmpty(s.ld, s.popped, s.wire);
  }

  lemma NotEmpty(ld: XilinxLoader.State, ps: seq<Serialiser.Payload>, wire: seq<bool>)
    requires Serialiser.Clocked(ld, ps, wire) && ld.fsm.OutputBit?
    ensures Serialiser.Stream(ps) != []
  {
    assert ps[|ps| - 1] in ps;
  }

  /** The good end of a boot, in every run from reset: if DONE is high at a bit output before the
      boot is over, and no SPI transfer runs on for `limit` cycles, then 4103 or 29 * limit + 1
      further cycles later, whichever is more, the boot is in BOOT_DONE: the startup clocks are out,
      the error flag is down and no no-bitstream pulse has come out; whatever DONE and INIT_B do
      meanwhile, and whatever the flash answers. */
  lemma DoneBoots(s: Sys, es: seq<Env>, n: nat, limit: nat)
    requires AfterReset(s) && n < |es| && DoneAtBit(Run(s, es[..n]), es[n])
    requires FeedControl.Prompt(s.feed, FeedEnvs(s, es), limit)
    requires |es| > n + 1 + OFFER_STEPS * limit && |es| > n + 1 + 4102
    ensures var t := Run(s, es);
      && t.feed.fb.fsm.BootDone? && Unreported(t.feed.fb)
      && t.ld.fsm.Idle? && t.ld.csrDone && !t.ld.csrError && t.seen
  {
    hide *;
    GeometryAtReset(s);
    assert es[..n + 1][..n] == es[..n];
    FoundDone(s, es[..n + 1]);
    var m := OfferedAgain(s, es, n + 1, limit);
    EndsWell(s, es, n + 1, m);
    RunFlags(s, es);
    EndFlags(Run(s, es));
  }

  lemma GeometryAtReset(s: Sys)
    requires AfterReset(s)
    ensures NorFlash.KnownSectorSize(s.feed.r.chip.sectorSize)
  {
  }

  lemma FoundDone(s: Sys, es: seq<Env>)
    requires AfterReset(s) && es != [] && DoneAtBit(Run(s, es[..|es| - 1]), es[|es| - 1])
    ensures Finishing(Run(s, es))
  {
    hide Run, Finishing, Inv, DoneAtBit;
    RunInv(s, es[..|es| - 1]);
    LastStep(s, es);
    DoneStarts(Run(s, es[..|es| - 1]), es[|es| - 1]);
  }

  lemma EndsWell(s: Sys, es: seq<Env>, n: nat, m: nat)
    requires NorFlash.KnownSectorSize(s.feed.r.chip.sectorSize) && n <= m < |es| && |es| > n + 4102
    requires Finishing(Run(s, es[..n])) && Offered(Run(s, es[..m]).feed.fb.fsm)
    ensures var t := Run(s, es); t.feed.fb.fsm.BootDone? && t.ld.fsm.Idle? && t.ld.csrDone && !t.ld.csrError
  {
    hide Run, Finishing, StartupLeft, Step;
    var before := es[..|es| - 1];
    assert before[..n] == es[..n] && before[..m] == es[..m];
    RunFinishing(s, before, n);
    StaysOffered(s, before, n, m);
    IdleAtLast(Run(s, before));
    LastStep(s, es);
    FinishingStep(Run(s, before), es[|es| - 1]);
    IdleSucceeded(Run(s, es));
  }

  lemma IdleAtLast(s: Sys)
    requires Finishing(s) && StartupLeft(s.ld) == 0
    ensures s.ld.fsm.Idle?
  {
    hide Inv;
  }

  lemma IdleSucceeded(s: Sys)
    requires Finishing(s) && s.ld.fsm.Idle?
    ensures s.ld.csrDone && !s.ld.csrError
  {
    hide Inv;
  }

  lemma EndFlags(t: Sys)
    requires Flags(t) && t.feed.fb.fsm.BootDone? && t.ld.csrDone && !t.ld.csrError
    ensures Unreported(t.feed.fb) && t.seen
  {
  }
}
