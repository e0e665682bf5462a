/** How far a transfer gets: the work it needs, for any interleaving of the host with the clock
    and any divider, and how it ends once everything is out. */
module HostProgress {
  import opened Bytes
  import opened Serialiser
  import opened HostPath
  import Board
  import LoaderTiming
  import XilinxLoader

  /** From START until the loader waits for DONE, with nothing reported. */
  predicate Sending(s: Sys) {
    && (s.ld.fsm.ExtendProg? || s.ld.fsm.WaitInit? || s.ld.fsm.WaitInit2? || XilinxLoader.Shifting(s.ld.fsm))
    && !s.ld.csrDone
  }

  /** The loader has just begun to wait for DONE. */
  predicate Waits(s: Sys) { s.ld.fsm.WaitDone? && s.ld.timeout == 200000 && !s.ld.csrDone }

  /** A clock edge at which the loader lacks neither an entry nor the rise of INIT_B. */
  predicate Works(s: Sys, a: Action) {
    a.Clock? && !(s.ld.fsm.ReadFifo? && s.q == []) && !(s.ld.fsm.WaitInit2? && !a.pins.initB)
  }

  function PhaseLeft(s: Sys): nat {
    if s.ld.fsm.ExtendProg? then s.ld.timeout + 200005
    else if s.ld.fsm.WaitInit? then s.ld.timeout + 4
    else if s.ld.fsm.WaitInit2? then 2
    else if MidShift(s.ld.fsm) then LoaderTiming.ShiftMeasure(s.ld, s.clkDiv)
    else 0
  }

  const ENTRY_STEPS: nat := 9000

  /** Working edges left until the FIFO is empty and the loader asks for more, or waits for DONE. */
  function StepsLeft(s: Sys): nat { ENTRY_STEPS * |s.q| + PhaseLeft(s) }

  function One(b: bool): nat { if b then 1 else 0 }

  /** START leaves the erase pulse, the wait for INIT_B and the entries of the FIFO to go. */
  lemma StartSteps(s: Sys, csr: Csr, bootEn: bool, pins: Pins)
    requires s.ld.fsm.Idle? && csr.start && bootEn && !csr.swrst
    ensures var t := Step(s, WriteCsr(csr, bootEn, pins)); Sending(t) && StepsLeft(t) == 201005 + ENTRY_STEPS * |t.q|
  {
    var u := s.(msbf := csr.msbf, clkDiv := csr.clkDiv);
    LoaderTiming.ExtendProgStarts(s.ld, LoaderIn(u, true, false, csr.exit, pins));
    hide XilinxLoader.Next, EdgeBits;
  }

  lemma ShiftMeasureBound(s: XilinxLoader.State, d: XilinxLoader.U7)
    requires MidShift(s.fsm)
    ensures 0 < LoaderTiming.ShiftMeasure(s, d) < ENTRY_STEPS
  {
  }

  lemma InitMoves(s: XilinxLoader.State, i: XilinxLoader.In)
    requires i.rstN && !i.swrst && !s.csrDone && (s.fsm.WaitInit? ==> s.timeout > 0)
    requires s.fsm.ExtendProg? || s.fsm.WaitInit? || s.fsm.WaitInit2?
    ensures var t := XilinxLoader.Next(s, i);
      && !t.csrDone
      && if s.fsm.ExtendProg? then
           if s.timeout == 0 then t.fsm.WaitInit? && t.timeout == 200000
           else t.fsm.ExtendProg? && t.timeout == s.timeout - 1
         else if s.fsm.WaitInit? then
           if i.initB then t.fsm.WaitInit? && t.timeout == s.timeout - 1 else t.fsm.WaitInit2?
         else t.fsm == if i.initB then XilinxLoader.ReadFifo else XilinxLoader.WaitInit2
  {
    hide XilinxLoader.Next;
    if s.fsm.ExtendProg? {
      LoaderTiming.ExtendProgStep(s, i);
    } else if s.fsm.WaitInit? {
      LoaderTiming.InitStep(s, i);
    } else {
      ReleasedInit(s, i);
    }
  }

  lemma ReleasedInit(s: XilinxLoader.State, i: XilinxLoader.In)
    requires i.rstN && !i.swrst && s.fsm.WaitInit2?
    ensures var t := XilinxLoader.Next(s, i);
      t.csrDone == s.csrDone && t.fsm == if i.initB then XilinxLoader.ReadFifo else XilinxLoader.WaitInit2
  {
    hide XilinxLoader.ShiftFsm, XilinxLoader.FinishFsm;
  }

  lemma InitWork(s: Sys, pins: Pins)
    requires Sending(s) && !XilinxLoader.Shifting(s.ld.fsm) && !Ends(s, Clock(pins))
    ensures var t := Edge(s, false, false, false, pins);
      && Sending(t) && t.q == s.q && t.pushed == s.pushed
      && PhaseLeft(t) + One(Works(s, Clock(pins))) <= PhaseLeft(s)
  {
    hide XilinxLoader.Next, EdgeBits, LoaderTiming.ShiftMeasure;
    InitMoves(s.ld, LoaderIn(s, false, false, false, pins));
  }

  lemma PopWork(s: Sys, pins: Pins)
    requires Sending(s) && s.ld.fsm.ReadFifo?
    ensures var t := Edge(s, false, false, false, pins);
      && Sending(t) && t.pushed == s.pushed
      && if s.q == [] then t.q == [] && t.ld.fsm.ReadFifo? else |t.q| == |s.q| - 1 && t.ld.fsm.ReadFifo2?
  {
    hide XilinxLoader.BeginFsm, XilinxLoader.FinishFsm, XilinxLoader.DivideClock, EdgeBits;
  }

  lemma ShiftWork(s: Sys, pins: Pins)
    requires Sending(s) && MidShift(s.ld.fsm) && !Ends(s, Clock(pins))
    ensures var t := Edge(s, false, false, false, pins);
      && (Sending(t) || Waits(t)) && t.q == s.q && t.pushed == s.pushed && t.clkDiv == s.clkDiv
      && PhaseLeft(t) < PhaseLeft(s)
  {
    hide XilinxLoader.Next, EdgeBits, LoaderTiming.ShiftMeasure;
    var i := LoaderIn(s, false, false, false, pins);
    ShiftMeasureBound(s.ld, s.clkDiv);
    FlagsKept(s.ld, i);
    LoaderTiming.ShiftTargets(s.ld, i);
    if s.ld.fsm.ReadFifo2? {
      LatchFields(s.ld, i);
    } else if s.ld.fsm.OutputBit? {
      OutputFields(s.ld, i);
    } else {
      EdgeFields(s.ld, i);
    }
    if MidShift(XilinxLoader.Next(s.ld, i).fsm) {
      LoaderTiming.ShiftProgress(s.ld, i);
    }
  }

  /** Every working edge takes a step off, and only a push adds to what is left. */
  lemma StepWork(s: Sys, a: Action)
    requires Sending(s) && !a.WriteCsr? && !Ends(s, a)
    ensures var t := Step(s, a);
      && (Sending(t) || Waits(t)) && |s.pushed| <= |t.pushed|
      && StepsLeft(t) + One(Works(s, a)) <= StepsLeft(s) + ENTRY_STEPS * (|t.pushed| - |s.pushed|)
  {
    hide Edge, LoaderTiming.ShiftMeasure;
    if a.Clock? {
      var t := Edge(s, false, false, false, a.pins);
      if s.ld.fsm.ReadFifo? {
        PopWork(s, a.pins);
        if t.ld.fsm.ReadFifo2? {
          ShiftMeasureBound(t.ld, t.clkDiv);
        }
      } else if MidShift(s.ld.fsm) {
        ShiftWork(s, a.pins);
      } else {
        InitWork(s, a.pins);
      }
    }
  }

  /** The working edges of a run. */
  function Work(s: Sys, acts: seq<Action>): nat {
    if acts == [] then 0
    else
      var before := acts[..|acts| - 1];
      Work(s, before) + One(Works(RunActs(s, before), acts[|acts| - 1]))
  }

  /** The loader has begun to wait for DONE at some point of the run. */
  predicate Arrived(s: Sys, acts: seq<Action>) {
    exists m: nat :: m <= |acts| && Waits(RunActs(s, acts[..m]))
  }

  predicate WithinWork(s: Sys, acts: seq<Action>) {
    var t := RunActs(s, acts);
    && Sending(t) && |s.pushed| <= |t.pushed|
    && Work(s, acts) + StepsLeft(t) <= StepsLeft(s) + ENTRY_STEPS * (|t.pushed| - |s.pushed|)
  }

  /** Work is conserved: while neither end comes, the loader gets to WAIT_DONE, or has not yet had
      the work that the entries pushed so far need. */
  lemma {:induction false} WorkBounded(s: Sys, acts: seq<Action>)
    requires Sending(s) && InSession(acts) && NotEnded(s, acts, |acts|)
    ensures Arrived(s, acts) || WithinWork(s, acts)
  {
    hide RunActs, Step, Sending, Waits, Ends, Works, StepsLeft;
    if acts == [] {
      NoActions(s);
    } else {
      var n := |acts| - 1;
      var before := acts[..n];
      assert forall j :: 0 <= j <= n ==> before[..j] == acts[..j];
      WorkBounded(s, before);
      LastAction(s, acts);
      if Arrived(s, before) {
        var m: nat :| m <= n && Waits(RunActs(s, before[..m]));
        assert Waits(RunActs(s, acts[..m]));
      } else {
        StepWork(RunActs(s, before), acts[n]);
        assert acts[..n + 1] == acts;
        assert Waits(RunActs(s, acts)) ==> Waits(RunActs(s, acts[..n + 1]));
      }
    }
  }

  lemma NoActions(s: Sys)
    ensures RunActs(s, []) == s
  {
  }

  lemma LastAction(s: Sys, acts: seq<Action>)
    requires acts != []
    ensures RunActs(s, acts) == Step(RunActs(s, acts[..|acts| - 1]), acts[|acts| - 1])
  {
  }

  // ---- waiting for DONE ----

  /** Clock edges of a run. */
  function Edges(acts: seq<Action>): nat {
    if acts == [] then 0 else Edges(acts[..|acts| - 1]) + One(acts[|acts| - 1].Clock?)
  }

  /** DONE is sampled high at one of the next `left` clock edges. */
  predicate DoneWithin(acts: seq<Action>, left: nat) {
    exists k: nat :: k < |acts| && acts[k].Clock? && acts[k].pins.done && Edges(acts[..k]) < left
  }

  lemma DoneOneMore(acts: seq<Action>, left: nat)
    requires acts != []
    ensures var n := |acts| - 1;
      DoneWithin(acts, left) <==>
        DoneWithin(acts[..n], left) || (acts[n].Clock? && acts[n].pins.done && Edges(acts[..n]) < left)
  {
    hide Edges;
    var n := |acts| - 1;
    assert forall k :: 0 <= k <= n ==> acts[..n][..k] == acts[..k];
    if DoneWithin(acts[..n], left) {
      var k: nat :| k < n && acts[..n][k].Clock? && acts[..n][k].pins.done && Edges(acts[..n][..k]) < left;
      assert acts[k].Clock? && acts[k].pins.done && Edges(acts[..k]) < left;
    }
    if DoneWithin(acts, left) {
      var k: nat :| k < |acts| && acts[k].Clock? && acts[k].pins.done && Edges(acts[..k]) < left;
      assert k < n ==> acts[..n][k].Clock? && acts[..n][k].pins.done && Edges(acts[..n][..k]) < left;
    }
  }

  /** Exactly how a wait for DONE ends, whatever the host reads meanwhile: with success if DONE is
      sampled high while the counter has not run out, else with the error once it has. */
  lemma {:induction false} DoneReported(s: Sys, acts: seq<Action>)
    requires s.ld.fsm.WaitDone? && !s.ld.csrDone && InSession(acts)
    ensures var t, left := RunActs(s, acts).ld, s.ld.timeout;
      if DoneWithin(acts, left) then t.fsm.Idle? && t.csrDone && !t.csrError
      else if Edges(acts) <= left then t.fsm.WaitDone? && !t.csrDone && t.timeout == left - Edges(acts)
      else t.fsm.Idle? && t.csrDone && t.csrError
  {
    hide RunActs, Step, DoneWithin;
    if acts == [] {
      NoActions(s);
      NeverDone(s.ld.timeout);
    } else {
      DoneReported(s, acts[..|acts| - 1]);
      LastAction(s, acts);
      DoneOneMore(acts, s.ld.timeout);
      WaitStep(RunActs(s, acts[..|acts| - 1]), acts[|acts| - 1]);
    }
  }

  lemma NeverDone(left: nat)
    ensures !DoneWithin([], left)
  {
  }

  lemma WaitStep(s: Sys, a: Action)
    requires !a.WriteCsr? && (s.ld.fsm.Idle? || s.ld.fsm.WaitDone?)
    ensures var t := Step(s, a).ld;
      if s.ld.fsm.Idle? || !a.Clock? then
        t.fsm == s.ld.fsm && t.csrDone == s.ld.csrDone && t.csrError == s.ld.csrError && (!a.Clock? ==> t == s.ld)
      else if s.ld.timeout == 0 then t.fsm.Idle? && t.csrDone && t.csrError
      else if a.pins.done then t.fsm.Idle? && t.csrDone && !t.csrError
      else t.fsm.WaitDone? && t.csrDone == s.ld.csrDone && t.timeout == s.ld.timeout - 1
  {
    hide XilinxLoader.Next, EdgeBits;
    if a.Clock? {
      var i := LoaderIn(s, false, false, false, a.pins);
      if s.ld.fsm.Idle? {
        BeginTargets(s.ld, i);
        LoaderTiming.FlagMoves(s.ld, i);
      } else {
        LoaderTiming.WaitDoneEnds(s.ld, i);
        LoaderTiming.WaitDoneOutcome(s.ld, i);
        LoaderTiming.WaitDoneStep(s.ld, i);
      }
    }
  }

  // ---- a whole session ----

  /** Once the entry marked XLAST has been pushed, the loader never lacks an entry. */
  lemma NeverStarves(s: Sys)
    requires Coherent(s) && s.pushed != [] && s.pushed[|s.pushed| - 1].last
    ensures !(s.ld.fsm.ReadFifo? && s.q == [])
  {
    hide Bits, Stream;
    var ps := Payloads(s.msbf, s.popped);
    LatestPayload(s.msbf, s.popped);
    assert ps != [] ==> ps[|ps| - 1] in ps;
    assert s.drained == [] && s.q == [] ==> s.popped == s.pushed;
  }

  /** From START on, for every interleaving of a polite host with the clock: if the wait for INIT_B
      does not run out and DONE is low at every bit output, and the loader has had the work of all
      its entries, then it has come to wait for DONE with everything on the wire, and CSR then
      reports success exactly when DONE is sampled high within 200000 cycles from there. */
  lemma HostSucceeds(s: Sys, acts: seq<Action>) returns (m: nat)
    requires Started(s) && Sending(s) && InSession(acts) && Polite(s, acts)
    requires var es := Pushes(acts, s.r0Size, s.r0Last);
      LastOnlyAtEnd(Payloads(true, es)) && Work(s, acts) > StepsLeft(s) + ENTRY_STEPS * |es|
    requires NotEnded(s, acts, |acts|)
    ensures m <= |acts| && Waits(RunActs(s, acts[..m]))
    ensures RunActs(s, acts[..m]).wire == Bits(Stream(Payloads(true, Pushes(acts, s.r0Size, s.r0Last))))
    ensures var t := RunActs(s, acts).ld; t.csrDone && !t.csrError <==> DoneWithin(acts[m..], 200000)
  {
    hide RunActs, Coherent, Accounted, Polite, InSession, NotEnded, LastOnlyAtEnd, DoneWithin, Bits, Stream, Payloads;
    WorkBounded(s, acts);
    StartedRun(s, acts);
    m :| m <= |acts| && Waits(RunActs(s, acts[..m]));
    EverythingOut(s, acts, m);
    SessionSplit(s, acts, m);
    DoneReported(RunActs(s, acts[..m]), acts[m..]);
  }

  lemma SessionSplit(s: Sys, acts: seq<Action>, m: nat)
    requires m <= |acts| && InSession(acts) && Polite(s, acts)
    ensures RunActs(s, acts) == RunActs(RunActs(s, acts[..m]), acts[m..])
    ensures InSession(acts[..m]) && InSession(acts[m..]) && Polite(s, acts[..m])
  {
    hide RunActs;
    assert acts == acts[..m] + acts[m..];
    Board.RunSplit(s, acts[..m], acts[m..]);
    assert forall j :: 0 <= j < m ==> acts[..m][..j] == acts[..j];
  }

  lemma EverythingOut(s: Sys, acts: seq<Action>, m: nat)
    requires Started(s) && InSession(acts) && Polite(s, acts) && m <= |acts|
    requires LastOnlyAtEnd(Payloads(true, Pushes(acts, s.r0Size, s.r0Last)))
    requires RunActs(s, acts[..m]).ld.fsm.WaitDone?
    ensures RunActs(s, acts[..m]).wire == Bits(Stream(Payloads(true, Pushes(acts, s.r0Size, s.r0Last))))
  {
    hide RunActs, Coherent, Accounted, Polite, InSession, Bits, Stream, Complete;
    SessionSplit(s, acts, m);
    StartedRun(s, acts);
    StartedRun(s, acts[..m]);
    PushedGrows(s, acts, m);
    var t := RunActs(s, acts[..m]);
    FinishedComplete(t);
    AllSent(t, RunActs(s, acts).pushed);
  }

  /** The popped XLAST entry is the last of all that are ever pushed. */
  lemma AllSent(t: Sys, all: seq<Entry>)
    requires Coherent(t) && t.msbf && Complete(t) && t.pushed <= all && LastOnlyAtEnd(Payloads(true, all))
    ensures t.wire == Bits(Stream(Payloads(true, all)))
  {
    hide Bits, Stream;
    var n := |t.popped| - 1;
    assert t.popped <= t.pushed;
    assert Payloads(true, t.popped)[n].last && Payloads(true, all)[n] == Payloads(true, t.popped)[n];
    assert t.popped == all;
  }

  // ---- the startup clocks after EXIT ----

  /** What the loader sees in a run of clock edges. */
  function LoaderIns(s: Sys, acts: seq<Action>): (ins: seq<XilinxLoader.In>)
    requires Clocks(acts)
    ensures |ins| == |acts|
  {
    if acts == [] then []
    else
      var before := acts[..|acts| - 1];
      LoaderIns(s, before) + [LoaderIn(RunActs(s, before), false, false, false, acts[|acts| - 1].pins)]
  }

  lemma {:induction false} LoaderRun(s: Sys, acts: seq<Action>)
    requires Clocks(acts)
    ensures RunActs(s, acts).ld == Serialiser.Run(s.ld, LoaderIns(s, acts)) && RunActs(s, acts).clkDiv == s.clkDiv
    ensures LoaderTiming.Undisturbed(LoaderIns(s, acts)) && LoaderTiming.ConstantDivider(LoaderIns(s, acts), s.clkDiv)
  {
    hide XilinxLoader.Next, EdgeBits;
    if acts != [] {
      var before := acts[..|acts| - 1];
      LoaderRun(s, before);
      assert LoaderIns(s, acts)[..|before|] == LoaderIns(s, before);
    }
  }

  lemma {:induction false} LoaderInsPrefix(s: Sys, acts: seq<Action>, n: nat)
    requires Clocks(acts) && n <= |acts|
    ensures LoaderIns(s, acts)[..n] == LoaderIns(s, acts[..n])
  {
    hide RunActs, LoaderIn;
    if n < |acts| {
      var before := acts[..|acts| - 1];
      LoaderInsPrefix(s, before, n);
      assert before[..n] == acts[..n];
      assert LoaderIns(s, acts)[..n] == LoaderIns(s, before)[..n];
    } else {
      assert acts[..n] == acts;
    }
  }

  /** The first idle state after START-UP began; all before it give startup clocks. */
  lemma {:induction false} FirstIdle(s: XilinxLoader.State, ins: seq<XilinxLoader.In>, n: nat) returns (m: nat)
    requires LoaderTiming.StartingUp(s.fsm) && s.startupCount <= XilinxLoader.STARTUP_CYCLES
    requires LoaderTiming.Undisturbed(ins) && n <= |ins| && Serialiser.Run(s, ins[..n]).fsm.Idle?
    ensures m <= n && Serialiser.Run(s, ins[..m]).fsm.Idle?
    ensures forall j :: 0 <= j < m ==> LoaderTiming.StartingUp(Serialiser.Run(s, ins[..j]).fsm)
  {
    hide XilinxLoader.Next, Serialiser.Run, LoaderTiming.StartingUp, XilinxLoader.STARTUP_CYCLES;
    m := 0;
    StartupStays(s, ins, 0);
    while !Serialiser.Run(s, ins[..m]).fsm.Idle?
      invariant m <= n
      invariant forall j :: 0 <= j < m ==> LoaderTiming.StartingUp(Serialiser.Run(s, ins[..j]).fsm)
      invariant var t := Serialiser.Run(s, ins[..m]);
        t.fsm.Idle? || (LoaderTiming.StartingUp(t.fsm) && t.startupCount <= XilinxLoader.STARTUP_CYCLES)
      decreases n - m
    {
      m := m + 1;
      StartupStays(s, ins, m);
    }
  }

  lemma StartupStays(s: XilinxLoader.State, ins: seq<XilinxLoader.In>, m: nat)
    requires LoaderTiming.StartingUp(s.fsm) && s.startupCount <= XilinxLoader.STARTUP_CYCLES
    requires LoaderTiming.Undisturbed(ins) && m <= |ins|
    requires m > 0 ==>
      var t := Serialiser.Run(s, ins[..m - 1]);
      LoaderTiming.StartingUp(t.fsm) && t.startupCount <= XilinxLoader.STARTUP_CYCLES
    ensures var t := Serialiser.Run(s, ins[..m]);
      t.fsm.Idle? || (LoaderTiming.StartingUp(t.fsm) && t.startupCount <= XilinxLoader.STARTUP_CYCLES)
  {
    hide XilinxLoader.Next, LoaderTiming.StartupMeasure;
    if m == 0 {
      assert ins[..0] == [];
    } else {
      LoaderTiming.StartupProgress(Serialiser.Run(s, ins[..m - 1]), ins[m - 1]);
      assert ins[..m][..m - 1] == ins[..m - 1];
    }
  }

  const STARTUP_BOUND: nat := 264579

  /** After EXIT in GOT_DONE, with nothing but the clock running: 1025 startup clocks come out, and
      the loader is idle again within 264579 cycles. */
  lemma StartupClocks(s: Sys, acts: seq<Action>) returns (m: nat)
    requires s.ld.fsm.StartupCclk0? && s.ld.startupCount == 0 && Clocks(acts) && |acts| >= STARTUP_BOUND
    ensures m <= STARTUP_BOUND && RunActs(s, acts[..m]).ld.fsm.Idle?
    ensures LoaderTiming.Edges(s.ld, LoaderIns(s, acts[..m])) == 1025
  {
    hide XilinxLoader.Next, RunActs, LoaderIns, Serialiser.Run, LoaderTiming.Edges;
    var ins := LoaderIns(s, acts);
    LoaderRun(s, acts);
    LoaderTiming.StartupStops(s.ld, ins, s.clkDiv);
    var n :| 0 < n <= LoaderTiming.StartupMeasure(s.ld, s.clkDiv) + 1 && Serialiser.Run(s.ld, ins[..n]).fsm.Idle?;
    m := FirstIdle(s.ld, ins, n);
    assert forall j :: 0 <= j < m ==> ins[..m][..j] == ins[..j];
    LoaderTiming.StartupPulses(s.ld, ins[..m]);
    LoaderInsPrefix(s, acts, m);
    LoaderRun(s, acts[..m]);
  }
}
