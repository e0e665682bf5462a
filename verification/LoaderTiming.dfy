/** Bounds on how long the loader stays anywhere, and its startup clocks. */
module LoaderTiming {
  import opened XilinxLoader
  import opened Serialiser

  predicate Undisturbed(ins: seq<In>) {
    forall j :: 0 <= j < |ins| ==> ins[j].rstN && !ins[j].swrst
  }

  predicate ConstantDivider(ins: seq<In>, d: U7) {
    forall j :: 0 <= j < |ins| ==> ins[j].clkDiv == d
  }

  lemma {:induction false} RunSplit(s: State, a: seq<In>, b: seq<In>)
    ensures Run(s, a + b) == Run(Run(s, a), b)
  {
    hide Next;
    if b == [] {
      assert a + b == a;
    } else {
      RunSplit(s, a, b[..|b| - 1]);
      assert (a + b)[..|a + b| - 1] == a + b[..|b| - 1];
    }
  }

  lemma RunFirst(s: State, ins: seq<In>)
    requires ins != []
    ensures Run(s, ins) == Run(Next(s, ins[0]), ins[1..])
  {
    assert ins == [ins[0]] + ins[1..];
    assert Run(s, [ins[0]]) == Next(Run(s, [ins[0]][..0]), ins[0]) == Next(s, ins[0]);
    RunSplit(s, [ins[0]], ins[1..]);
  }

  // ---- the clock divider ----

  /** Cycles until `tick` is seen, under the constant divider `d`. */
  function CyclesToTick(s: State, d: U7): nat {
    if s.tick then 0 else (d - s.clkDiv) % 128 + 1
  }

  lemma CountsDown(s: State, i: In)
    requires i.rstN && !s.tick
    ensures CyclesToTick(Next(s, i), i.clkDiv) == CyclesToTick(s, i.clkDiv) - 1
  {
  }

  /** From any state the first tick comes after exactly `CyclesToTick` cycles, at most 128. */
  lemma {:induction false} FirstTick(s: State, ins: seq<In>, d: U7)
    requires Undisturbed(ins) && ConstantDivider(ins, d) && |ins| <= CyclesToTick(s, d)
    ensures CyclesToTick(s, d) <= 128
    ensures Run(s, ins).tick <==> |ins| == CyclesToTick(s, d)
    decreases |ins|
  {
    if ins != [] {
      CountsDown(s, ins[0]);
      RunFirst(s, ins);
      FirstTick(Next(s, ins[0]), ins[1..], d);
    }
  }

  // ---- PROG_B ----

  /** PROG_B stays low for all of the first 1002 cycles after START, whatever the pins do. */
  lemma {:induction false} ProgBHeld(s: State, i: In, ins: seq<In>)
    requires Starting(s, i) && Undisturbed(ins) && |ins| <= 1001
    ensures !Run(Next(s, i), ins).programB
    ensures var t := Run(Next(s, i), ins);
      if |ins| <= 1000 then t.fsm.ExtendProg? && t.timeout == 1000 - |ins| else t.fsm.WaitInit?
  {
    if ins == [] {
      ExtendProgStarts(s, i);
    } else {
      var before := ins[..|ins| - 1];
      ProgBHeld(s, i, before);
      ExtendProgStep(Run(Next(s, i), before), ins[|ins| - 1]);
    }
  }

  lemma ExtendProgStarts(s: State, i: In)
    requires Starting(s, i)
    ensures var t := Next(s, i); t.fsm.ExtendProg? && !t.programB && t.timeout == 1000 && !t.csrDone && !t.csrError
  {
  }

  lemma ExtendProgStep(s: State, i: In)
    requires s.fsm.ExtendProg? && i.rstN && !i.swrst
    ensures s.timeout == 0 ==>
      Next(s, i).fsm.WaitInit? && Next(s, i).timeout == 200000 && Next(s, i).programB == s.programB
    ensures s.timeout > 0 ==>
      Next(s, i).fsm.ExtendProg? && Next(s, i).timeout == s.timeout - 1 && Next(s, i).programB == s.programB
    ensures Next(s, i).csrDone == s.csrDone && Next(s, i).csrError == s.csrError
  {
  }

  /** PROG_B is low while the FPGA is erased and INIT_B is waited for, and high in every later
      state. IDLE is left open: a wait that has run out leaves it low for one cycle more. */
  predicate PinHeld(s: State) {
    s.fsm.Idle? || (s.programB <==> !s.fsm.ExtendProg? && !s.fsm.WaitInit?)
  }

  lemma PinStep(s: State, i: In)
    requires PinHeld(s)
    ensures PinHeld(Next(s, i))
  {
    hide Next;
    if !i.rstN || i.swrst {
      RestartedPins(s, i);
    } else if Beginning(s.fsm) {
      BeginPins(s, i);
      BeginTargets(s, i);
      if s.fsm.WaitInit? {
        WaitInitOutcome(s, i);
      }
    } else {
      PinKept(s, i);
      if Shifting(s.fsm) {
        ShiftTargets(s, i);
      } else {
        FinishTargets(s, i);
      }
    }
  }

  /** A configuration edge comes only with PROG_B high, before and after it. */
  lemma EdgeWithPin(s: State, i: In)
    requires PinHeld(s) && i.rstN && !i.swrst && EdgeBits(s, Next(s, i)) != []
    ensures s.programB && Next(s, i).programB && s.fsm.ClockEdge?
  {
    hide Next;
    EdgesAccountedFor(s, i);
    PinKept(s, i);
  }

  /** The EXIT command is what starts the startup clocks. */
  lemma GotDoneLeaves(s: State, i: In)
    requires s.fsm.GotDone? && i.rstN && !i.swrst
    ensures var t := Next(s, i);
      && t.csrDone && !t.csrError
      && if i.startup then t.fsm.StartupCclk0? && t.startupCount == 0 else t.fsm.GotDone?
  {
    hide BeginFsm, ShiftFsm, DivideClock;
  }

  /** A reset of the chip, or of the loader alone, sets every pin and flag. */
  lemma RestartedPins(s: State, i: In)
    requires !i.rstN || i.swrst
    ensures var t := Next(s, i);
      && t.fsm.Idle? && t.programB && !t.cclk && !t.din && !t.csrDone && !t.csrError
      && (!i.rstN ==> t.clkDiv == 0 && !t.tick)
  {
    hide BeginFsm, ShiftFsm, FinishFsm;
  }

  /** Each state's PROG_B on the way from START to INIT_B released; an idle loader rests its pins. */
  lemma BeginPins(s: State, i: In)
    requires i.rstN && !i.swrst && Beginning(s.fsm)
    ensures var t := Next(s, i);
      t.programB == match s.fsm
                    case Idle => !i.start
                    case WaitInit => s.programB || !i.initB
                    case _ => s.programB
    ensures var t := Next(s, i); s.fsm.Idle? && !i.start ==> !t.cclk && !t.din
  {
    BeginFsmPins(s, i);
    hide BeginFsm, ShiftFsm, FinishFsm, DivideClock;
  }

  lemma BeginFsmPins(s: State, i: In)
    requires Beginning(s.fsm)
    ensures var t := BeginFsm(s, i);
      t.programB == match s.fsm
                    case Idle => !i.start
                    case WaitInit => s.programB || !i.initB
                    case _ => s.programB
    ensures var t := BeginFsm(s, i); s.fsm.Idle? && !i.start ==> !t.cclk && !t.din
  {
    match s.fsm
    case Idle =>
    case ExtendProg =>
    case WaitInit =>
    case WaitInit2 =>
  }

  lemma PinKept(s: State, i: In)
    requires i.rstN && !i.swrst && !Beginning(s.fsm)
    ensures Next(s, i).programB == s.programB
  {
    if Shifting(s.fsm) {
      PinKeptShifting(s, i);
    } else {
      PinKeptFinishing(s, i);
    }
    hide BeginFsm, ShiftFsm, FinishFsm, DivideClock;
  }

  lemma PinKeptShifting(s: State, i: In)
    requires Shifting(s.fsm)
    ensures ShiftFsm(s, i).programB == s.programB
  {
    hide Ordered;
    match s.fsm
    case ReadFifo =>
    case ReadFifo2 =>
    case OutputBit =>
    case ClockEdge =>
  }

  lemma PinKeptFinishing(s: State, i: In)
    requires !Beginning(s.fsm) && !Shifting(s.fsm)
    ensures FinishFsm(s, i).programB == s.programB
  {
    match s.fsm
    case WaitDone =>
    case GotDone =>
    case StartupCclk0 =>
    case StartupCclk1 =>
  }

  /** In every run, under any resets, pins and divider, from any state that keeps the rule, as
      every state of IDLE does. */
  lemma {:induction false} ProgBExactly(s: State, ins: seq<In>)
    requires PinHeld(s)
    ensures PinHeld(Run(s, ins))
  {
    if ins != [] {
      ProgBExactly(s, ins[..|ins| - 1]);
      PinStep(Run(s, ins[..|ins| - 1]), ins[|ins| - 1]);
    }
  }

  /** CCLK is low again before the next entry is latched, and before every rising edge. */
  predicate ClockRests(s: State) { s.fsm.ReadFifo2? || s.fsm.ClockEdge? || s.fsm.StartupCclk1? ==> !s.cclk }

  lemma ClockStep(s: State, i: In)
    requires ClockRests(s)
    ensures ClockRests(Next(s, i))
  {
    hide Next;
    if !i.rstN || i.swrst {
      RestartedPins(s, i);
    } else if Beginning(s.fsm) {
      BeginTargets(s, i);
    } else if s.fsm.ReadFifo? {
      PopClock(s, i);
    } else if s.fsm.ReadFifo2? {
      LatchFields(s, i);
      LatchClock(s, i);
    } else if s.fsm.OutputBit? {
      OutputFields(s, i);
    } else if s.fsm.ClockEdge? {
      EdgeFields(s, i);
    } else {
      FinishTargets(s, i);
      StartupClock(s, i);
    }
  }

  lemma PopClock(s: State, i: In)
    requires i.rstN && !i.swrst && s.fsm.ReadFifo?
    ensures var t := Next(s, i); !t.cclk && t.fsm == if i.empty then ReadFifo else ReadFifo2
  {
    hide BeginFsm, FinishFsm, DivideClock;
  }

  lemma LatchClock(s: State, i: In)
    requires i.rstN && !i.swrst && s.fsm.ReadFifo2?
    ensures Next(s, i).cclk == s.cclk
  {
    hide BeginFsm, FinishFsm, DivideClock, Ordered;
  }

  /** The startup clocks come with DIN low from the first cycle on. */
  lemma StartupClock(s: State, i: In)
    requires i.rstN && !i.swrst && !Beginning(s.fsm) && !Shifting(s.fsm)
    ensures var t := Next(s, i);
      && (t.fsm.StartupCclk1? ==> (s.fsm.StartupCclk0? && !t.cclk) || (s.fsm.StartupCclk1? && t.cclk == s.cclk))
      && (s.fsm.StartupCclk0? ==> !t.din)
  {
    FinishClock(s, i);
    hide BeginFsm, ShiftFsm, FinishFsm, DivideClock;
  }

  lemma FinishClock(s: State, i: In)
    requires !Beginning(s.fsm) && !Shifting(s.fsm)
    ensures var t := FinishFsm(s, i);
      && (t.fsm.StartupCclk1? ==> (s.fsm.StartupCclk0? && !t.cclk) || (s.fsm.StartupCclk1? && t.cclk == s.cclk))
      && (s.fsm.StartupCclk0? ==> !t.din)
  {
    match s.fsm
    case WaitDone =>
    case GotDone =>
    case StartupCclk0 =>
    case StartupCclk1 =>
  }

  lemma {:induction false} RunClockRests(s: State, ins: seq<In>)
    requires ClockRests(s)
    ensures ClockRests(Run(s, ins))
  {
    if ins != [] {
      RunClockRests(s, ins[..|ins| - 1]);
      ClockStep(Run(s, ins[..|ins| - 1]), ins[|ins| - 1]);
    }
  }

  /** In WAIT_INIT the pin stays low as long as INIT_B is high, and is released by the very cycle
      that first samples it low, also if that is the cycle of the timeout. */
  lemma {:induction false} ProgBReleased(s: State, ins: seq<In>, i: In)
    requires s.fsm.WaitInit? && PinHeld(s) && Undisturbed(ins) && i.rstN && !i.swrst && |ins| <= s.timeout
    requires forall j :: 0 <= j < |ins| ==> ins[j].initB
    ensures var t := Run(s, ins);
      && t.fsm.WaitInit? && !t.programB && t.timeout == s.timeout - |ins|
      && (Next(t, i).programB <==> !i.initB) && (Next(t, i).fsm.WaitInit2? <==> !i.initB)
  {
    hide Next;
    if ins != [] {
      var before, last := ins[..|ins| - 1], ins[|ins| - 1];
      ProgBReleased(s, before, last);
      InitStep(Run(s, before), last);
    }
    BeginPins(Run(s, ins), i);
    WaitInitOutcome(Run(s, ins), i);
  }

  // ---- the two timeouts ----

  lemma WaitInitStep(s: State, i: In)
    requires s.fsm.WaitInit? && i.rstN && !i.swrst
    ensures var t := Next(s, i);
      t.fsm.WaitInit? ==> i.initB && s.timeout > 0 && t.timeout == s.timeout - 1
  {
  }

  lemma WaitDoneStep(s: State, i: In)
    requires s.fsm.WaitDone? && i.rstN && !i.swrst
    ensures var t := Next(s, i);
      t.fsm.WaitDone? ==> !i.done && s.timeout > 0 && t.timeout == s.timeout - 1
  {
  }

  /** A state that waits cannot still be waiting after timeout + 1 cycles. */
  lemma {:induction false} WaitBounded(s: State, ins: seq<In>)
    requires Undisturbed(ins) && (s.fsm.WaitInit? || s.fsm.WaitDone?)
    requires forall j :: 0 <= j <= |ins| ==> Run(s, ins[..j]).fsm == s.fsm
    ensures |ins| <= s.timeout && Run(s, ins).timeout == s.timeout - |ins|
  {
    if ins != [] {
      var before := ins[..|ins| - 1];
      assert forall j :: 0 <= j <= |before| ==> before[..j] == ins[..j];
      WaitBounded(s, before);
      assert ins[..|ins|] == ins;
      if s.fsm.WaitInit? {
        WaitInitStep(Run(s, before), ins[|ins| - 1]);
      } else {
        WaitDoneStep(Run(s, before), ins[|ins| - 1]);
      }
    }
  }

  /** WAIT_INIT is entered with 200000 on the clock, so it is left within 200001 cycles. */
  lemma WaitInitLeft(s: State, i: In, ins: seq<In>)
    requires i.rstN && !i.swrst && !s.fsm.WaitInit? && Next(s, i).fsm.WaitInit?
    requires Undisturbed(ins) && |ins| == 200001
    ensures exists n :: 0 <= n <= 200001 && !Run(Next(s, i), ins[..n]).fsm.WaitInit?
  {
    var t := Next(s, i);
    EntersWaitInit(s, i);
    if forall n :: 0 <= n <= 200001 ==> Run(t, ins[..n]).fsm.WaitInit? {
      WaitBounded(t, ins);
    }
  }

  lemma EntersWaitInit(s: State, i: In)
    requires i.rstN && !i.swrst && !s.fsm.WaitInit? && Next(s, i).fsm.WaitInit?
    ensures Next(s, i).timeout == 200000
  {
    if Shifting(s.fsm) {
      ShiftTargets(s, i);
    } else if Beginning(s.fsm) {
      BeginTargets(s, i);
      ExtendProgStep(s, i);
    } else {
      FinishTargets(s, i);
    }
  }

  lemma ShiftTargets(s: State, i: In)
    requires i.rstN && !i.swrst && Shifting(s.fsm)
    ensures var t := Next(s, i); Shifting(t.fsm) || t.fsm.GotDone? || (t.fsm.WaitDone? && t.timeout == 200000)
  {
    match s.fsm
    case ReadFifo =>
    case ReadFifo2 =>
    case OutputBit =>
    case ClockEdge =>
  }

  /** WAIT_DONE likewise. */
  lemma WaitDoneLeft(s: State, i: In, ins: seq<In>)
    requires i.rstN && !i.swrst && !s.fsm.WaitDone? && Next(s, i).fsm.WaitDone?
    requires Undisturbed(ins) && |ins| == 200001
    ensures exists n :: 0 <= n <= 200001 && !Run(Next(s, i), ins[..n]).fsm.WaitDone?
  {
    var t := Next(s, i);
    EntersWaitDone(s, i);
    if forall n :: 0 <= n <= 200001 ==> Run(t, ins[..n]).fsm.WaitDone? {
      WaitBounded(t, ins);
    }
  }

  lemma EntersWaitDone(s: State, i: In)
    requires i.rstN && !i.swrst && !s.fsm.WaitDone? && Next(s, i).fsm.WaitDone?
    ensures Next(s, i).timeout == 200000
  {
    if Shifting(s.fsm) {
      ShiftTargets(s, i);
    } else if Beginning(s.fsm) {
      BeginTargets(s, i);
    } else {
      FinishTargets(s, i);
    }
  }

  /** How WAIT_DONE ends: with success exactly when DONE is high before the last cycle;
      on the last cycle the timeout wins even if DONE is high. */
  lemma WaitDoneOutcome(s: State, i: In)
    requires s.fsm.WaitDone? && i.rstN && !i.swrst
    ensures var t := Next(s, i); t.fsm.Idle? <==> i.done || s.timeout == 0
    ensures var t := Next(s, i); t.fsm.Idle? ==> t.csrDone && (t.csrError <==> s.timeout == 0)
  {
  }

  lemma WaitDoneEnds(s: State, i: In)
    requires s.fsm.WaitDone? && i.rstN && !i.swrst
    ensures var t := Next(s, i);
      if i.done || s.timeout == 0 then t.fsm.Idle?
      else t.fsm.WaitDone? && t.csrDone == s.csrDone && t.csrError == s.csrError
  {
  }

  /** In WAIT_INIT the two tests overlap: when INIT_B falls in the very cycle of the timeout,
      the error flags are raised and yet the loader carries on. */
  lemma WaitInitOutcome(s: State, i: In)
    requires s.fsm.WaitInit? && i.rstN && !i.swrst
    ensures var t := Next(s, i); t.fsm.WaitInit2? <==> !i.initB
    ensures var t := Next(s, i); t.fsm.Idle? <==> i.initB && s.timeout == 0
    ensures s.timeout == 0 ==> Next(s, i).csrDone && Next(s, i).csrError
  {
  }

  /** WAIT_INIT runs out in this cycle. */
  predicate Expires(s: State, i: In) { i.rstN && !i.swrst && s.fsm.WaitInit? && s.timeout == 0 }

  /** As long as INIT_B is high, WAIT_INIT counts down. */
  lemma {:induction false} InitCounts(s: State, ins: seq<In>)
    requires s.fsm.WaitInit? && s.timeout == INIT_TIMEOUT && !s.csrError && Undisturbed(ins) && |ins| <= INIT_TIMEOUT
    requires forall j :: 0 <= j < |ins| ==> ins[j].initB
    ensures var t := Run(s, ins); t.fsm.WaitInit? && t.timeout == INIT_TIMEOUT - |ins| && !t.csrError
  {
    if ins != [] {
      InitCounts(s, ins[..|ins| - 1]);
      InitStep(Run(s, ins[..|ins| - 1]), ins[|ins| - 1]);
    }
  }

  lemma InitStep(s: State, i: In)
    requires s.fsm.WaitInit? && s.timeout > 0 && i.rstN && !i.swrst
    ensures var t := Next(s, i);
      && t.csrDone == s.csrDone && t.csrError == s.csrError
      && if i.initB then t.fsm.WaitInit? && t.timeout == s.timeout - 1 else t.fsm.WaitInit2?
  {
  }

  /** WAIT_INIT, entered with its full count, runs out exactly when INIT_B is sampled high in
      each of the first 200000 cycles; else it is left without touching the flags. */
  lemma InitExpiresExactly(s: State, ins: seq<In>)
    requires s.fsm.WaitInit? && s.timeout == INIT_TIMEOUT && !s.csrError && Undisturbed(ins) && |ins| == INIT_TIMEOUT
    ensures (forall j :: 0 <= j < |ins| ==> ins[j].initB) <==>
      forall j :: 0 <= j <= |ins| ==> Run(s, ins[..j]).fsm.WaitInit?
    ensures (forall j :: 0 <= j < |ins| ==> ins[j].initB) ==> Run(s, ins).fsm.WaitInit? && Run(s, ins).timeout == 0
  {
    if forall j :: 0 <= j < |ins| ==> ins[j].initB {
      forall j | 0 <= j <= |ins|
        ensures Run(s, ins[..j]).fsm.WaitInit?
      {
        InitCounts(s, ins[..j]);
      }
      InitCounts(s, ins);
    } else {
      var j := FirstLow(ins);
      InitCounts(s, ins[..j]);
      assert ins[..j + 1][..j] == ins[..j];
      InitStep(Run(s, ins[..j]), ins[j]);
    }
  }

  lemma {:induction false} FirstLow(ins: seq<In>) returns (j: nat)
    requires exists k :: 0 <= k < |ins| && !ins[k].initB
    ensures j < |ins| && !ins[j].initB && forall k :: 0 <= k < j ==> ins[k].initB
  {
    if ins[0].initB {
      j := FirstLow(ins[1..]);
      j := j + 1;
      assert forall k :: 1 <= k < j ==> ins[k] == ins[1..][k - 1];
    } else {
      j := 0;
    }
  }

  // ---- the status flags ----

  /** The flags change only at START, when WAIT_INIT or WAIT_DONE ends, and in GOT_DONE. */
  predicate FlagsChange(s: State, i: In, t: State) {
    if Starting(s, i) then !t.csrDone && !t.csrError
    else if Expires(s, i) then t.csrDone && t.csrError && (t.fsm.Idle? || t.fsm.WaitInit2?)
    else if s.fsm.GotDone? then t.csrDone && !t.csrError
    else t.csrDone == s.csrDone && t.csrError == s.csrError
  }

  lemma FlagMoves(s: State, i: In)
    requires i.rstN && !i.swrst && !s.fsm.WaitDone?
    ensures FlagsChange(s, i, Next(s, i))
  {
    if Shifting(s.fsm) {
      FlagsKept(s, i);
    } else if Beginning(s.fsm) {
      BeginFlagMoves(s, i);
    } else {
      FinishFlagMoves(s, i);
    }
  }

  lemma BeginFlagMoves(s: State, i: In)
    requires i.rstN && !i.swrst && Beginning(s.fsm)
    ensures FlagsChange(s, i, Next(s, i))
  {
    match s.fsm
    case Idle => IdleFlags(s, i);
    case ExtendProg => ExtendFlags(s, i);
    case WaitInit => WaitInitFlags(s, i);
    case WaitInit2 => InitHighFlags(s, i);
    hide FlagsChange, Next;
  }

  lemma IdleFlags(s: State, i: In)
    requires i.rstN && !i.swrst && s.fsm.Idle?
    ensures FlagsChange(s, i, Next(s, i))
  {
    hide ShiftFsm, FinishFsm, DivideClock;
  }

  lemma ExtendFlags(s: State, i: In)
    requires i.rstN && !i.swrst && s.fsm.ExtendProg?
    ensures FlagsChange(s, i, Next(s, i))
  {
    hide ShiftFsm, FinishFsm, DivideClock;
    ExtendProgStep(s, i);
    hide Next;
  }

  lemma InitHighFlags(s: State, i: In)
    requires i.rstN && !i.swrst && s.fsm.WaitInit2?
    ensures FlagsChange(s, i, Next(s, i))
  {
    hide ShiftFsm, FinishFsm, DivideClock;
  }

  lemma WaitInitFlags(s: State, i: In)
    requires i.rstN && !i.swrst && s.fsm.WaitInit?
    ensures FlagsChange(s, i, Next(s, i))
  {
    hide ShiftFsm, FinishFsm, DivideClock;
  }

  lemma FinishFlagMoves(s: State, i: In)
    requires i.rstN && !i.swrst && (s.fsm.GotDone? || StartingUp(s.fsm))
    ensures FlagsChange(s, i, Next(s, i))
  {
    hide BeginFsm, ShiftFsm, DivideClock;
    match s.fsm
    case GotDone =>
    case StartupCclk0 =>
    case StartupCclk1 =>
  }

  // ---- shifting an entry terminates ----

  function TicksLeft(s: State): nat
    requires MidShift(s.fsm)
  {
    if s.fsm.ReadFifo2? then 65
    else if s.fsm.OutputBit? then 2 * s.bitCounter + 2
    else 2 * s.bitCounter + 1
  }

  /** Ticks left, then cycles to the next tick, as one number. */
  function ShiftMeasure(s: State, d: U7): nat
    requires MidShift(s.fsm)
  {
    129 * TicksLeft(s) + CyclesToTick(s, d)
  }

  lemma ShiftProgress(s: State, i: In)
    requires MidShift(s.fsm) && i.rstN && !i.swrst && MidShift(Next(s, i).fsm)
    ensures ShiftMeasure(Next(s, i), i.clkDiv) < ShiftMeasure(s, i.clkDiv)
  {
    if s.fsm.ReadFifo2? {
      LatchFields(s, i);
    } else if s.fsm.OutputBit? {
      OutputFields(s, i);
    } else {
      EdgeFields(s, i);
    }
    if !s.tick {
      CountsDown(s, i);
    }
  }

  /** With a constant divider an entry is out, or DONE has cut it short, within the measure. */
  lemma {:induction false} ShiftTerminates(s: State, ins: seq<In>, d: U7)
    requires MidShift(s.fsm) && Undisturbed(ins) && ConstantDivider(ins, d)
    requires |ins| > ShiftMeasure(s, d)
    ensures exists n :: 0 < n <= ShiftMeasure(s, d) + 1 && !MidShift(Run(s, ins[..n]).fsm)
    decreases ShiftMeasure(s, d)
  {
    var t := Next(s, ins[0]);
    RunAfterFirst(s, ins, 0);
    if MidShift(t.fsm) {
      ShiftProgress(s, ins[0]);
      ShiftTerminates(t, ins[1..], d);
      var n :| 0 < n <= ShiftMeasure(t, d) + 1 && !MidShift(Run(t, ins[1..][..n]).fsm);
      RunAfterFirst(s, ins, n);
    }
  }

  lemma RunAfterFirst(s: State, ins: seq<In>, n: nat)
    requires n < |ins|
    ensures Run(s, ins[..n + 1]) == Run(Next(s, ins[0]), ins[1..][..n])
  {
    RunFirst(s, ins[..n + 1]);
    assert ins[..n + 1][1..] == ins[1..][..n];
  }

  // ---- startup clocks ----

  /** Rising CCLK edges of a run, startup edges included. */
  function Edges(s: State, ins: seq<In>): nat {
    if ins == [] then 0
    else
      var before := ins[..|ins| - 1];
      Edges(s, before) + if Rising(Run(s, before), Run(s, ins)) then 1 else 0
  }

  predicate StartingUp(f: Fsm) { f.StartupCclk0? || f.StartupCclk1? }

  lemma StartupStep(s: State, i: In, edges: nat)
    requires i.rstN && !i.swrst && StartingUp(s.fsm)
    requires s.startupCount == edges <= 1024
    requires s.fsm.StartupCclk1? ==> !s.cclk && !s.din
    ensures var t := Next(s, i);
      var now := edges + if Rising(s, t) then 1 else 0;
      if t.fsm.Idle? then now == 1025
         else StartingUp(t.fsm) && t.startupCount == now <= 1024 && (t.fsm.StartupCclk1? ==> !t.cclk && !t.din)
  {
    match s.fsm
    case StartupCclk0 =>
    case StartupCclk1 =>
  }

  /** After the EXIT command the loader gives exactly 1025 CCLK pulses, with DIN low, and stops. */
  lemma {:induction false} StartupPulses(s: State, ins: seq<In>)
    requires s.fsm.StartupCclk0? && s.startupCount == 0 && Undisturbed(ins)
    requires forall j :: 0 <= j < |ins| ==> StartingUp(Run(s, ins[..j]).fsm)
    ensures var t := Run(s, ins);
      if t.fsm.Idle? then Edges(s, ins) == 1025
      else StartingUp(t.fsm) && t.startupCount == Edges(s, ins) <= 1024
    ensures var t := Run(s, ins); t.fsm.StartupCclk1? ==> !t.cclk && !t.din
  {
    if ins != [] {
      var before := ins[..|ins| - 1];
      assert forall j :: 0 <= j < |before| ==> before[..j] == ins[..j];
      StartupPulses(s, before);
      assert ins[..|ins| - 1] == before;
      StartupStep(Run(s, before), ins[|ins| - 1], Edges(s, before));
    }
  }

  /** Half pulses of the startup sequence still to come, then cycles to the next tick. */
  function StartupMeasure(s: State, d: U7): nat
    requires StartingUp(s.fsm) && s.startupCount <= STARTUP_CYCLES
  {
    129 * (2 * (STARTUP_CYCLES - s.startupCount) + if s.fsm.StartupCclk0? then 2 else 1) + CyclesToTick(s, d)
  }

  lemma StartupProgress(s: State, i: In)
    requires i.rstN && !i.swrst && StartingUp(s.fsm) && s.startupCount <= STARTUP_CYCLES
    ensures var t := Next(s, i);
      || t.fsm.Idle?
      || (StartingUp(t.fsm) && t.startupCount <= STARTUP_CYCLES
          && StartupMeasure(t, i.clkDiv) < StartupMeasure(s, i.clkDiv))
  {
    if !s.tick {
      CountsDown(s, i);
    }
    match s.fsm
    case StartupCclk0 =>
    case StartupCclk1 =>
  }

  /** With a constant divider startup stops: IDLE is reached within the measure. */
  lemma {:induction false} StartupStops(s: State, ins: seq<In>, d: U7)
    requires StartingUp(s.fsm) && s.startupCount <= STARTUP_CYCLES && Undisturbed(ins) && ConstantDivider(ins, d)
    requires |ins| > StartupMeasure(s, d)
    ensures exists n :: 0 < n <= StartupMeasure(s, d) + 1 && Run(s, ins[..n]).fsm.Idle?
    decreases StartupMeasure(s, d)
  {
    var t := Next(s, ins[0]);
    StartupProgress(s, ins[0]);
    RunAfterFirst(s, ins, 0);
    if !t.fsm.Idle? {
      StartupStops(t, ins[1..], d);
      var n :| 0 < n <= StartupMeasure(t, d) + 1 && Run(t, ins[1..][..n]).fsm.Idle?;
      RunAfterFirst(s, ins, n);
    }
  }
}
