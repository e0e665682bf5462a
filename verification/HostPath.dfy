/** The host side of the loader: register writes, the 256-entry FIFO and the loader clock,
    interleaved in any order. The histories record what went in and what came out. */
module HostPath {
  import opened Bytes
  import opened XilinxLoader
  import opened Serialiser
  import LoaderTiming

  const FIFO_SIZE := 256

  /** One FIFO entry: R1 data with the size and XLAST fields of R0. */
  datatype Entry = Entry(word: Word, dsize: U2, last: bool)

  datatype Csr = Csr(start: bool, msbf: bool, swrst: bool, exit: bool, clkDiv: U6)

  /** What the synchronisers sample from the Application FPGA in a clock cycle. */
  datatype Pins = Pins(initB: bool, done: bool)

  datatype Sys = Sys(
    ld: State,
    q: seq<Entry>,        // the FIFO
    out: Entry,           // its read port, one cycle after a request
    msbf: bool, clkDiv: U6,
    r0Size: U2, r0Last: bool,
    sawRoom: bool,        // the host's last FIFO_CSR read showed FULL clear, nothing pushed since
    pushed: seq<Entry>, popped: seq<Entry>, drained: seq<Entry>,  // since SWRST or START
    wire: seq<bool>,      // bits at configuration edges, since SWRST or START
    doneSeen: bool,       // DONE sampled high, since SWRST or START
    lost: nat)            // pushes into a full FIFO

  datatype Action =
    | Clock(pins: Pins)
    | WriteCsr(csr: Csr, bootEn: bool, pins: Pins)
    | WriteR0(dsize: U2, last: bool)
    | WriteR1(word: Word)
    | ReadFifoCsr

  function PayloadOf(msbf: bool, e: Entry): Payload {
    Payload(Ordered(msbf, e.word)[..e.dsize + 1], e.last)
  }

  function Payloads(msbf: bool, es: seq<Entry>): (ps: seq<Payload>) {
    seq(|es|, j requires 0 <= j < |es| => PayloadOf(msbf, es[j]))
  }

  function LoaderIn(s: Sys, start: bool, swrst: bool, startup: bool, pins: Pins): In {
    In(true, swrst, start, s.clkDiv, s.out.word, s.out.dsize, s.msbf, s.out.last, s.q == [],
       startup, pins.initB, pins.done)
  }

  function SeenAfter(s: State, i: In, seen: bool): bool {
    if !i.rstN || i.swrst || Starting(s, i) then false else seen || i.done
  }

  /** One rising clock edge, with the monostable CSR pulses of this cycle. */
  function Edge(s: Sys, start: bool, swrst: bool, startup: bool, pins: Pins): Sys {
    var i := LoaderIn(s, start, swrst, startup, pins);
    var pops := CsrRd(s.ld, i);
    s.(ld := Next(s.ld, i),
       out := if pops then s.q[0] else s.out,
       q := if pops then s.q[1..] else s.q,
       popped := if pops && s.ld.fsm.ReadFifo? then s.popped + [s.q[0]] else s.popped,
       drained := if pops && s.ld.fsm.Idle? then s.drained + [s.q[0]] else s.drained,
       wire := s.wire + EdgeBits(s.ld, Next(s.ld, i)),
       doneSeen := SeenAfter(s.ld, i, s.doneSeen))
  }

  /** A write that resets the loader, or that starts it while it is idle, begins a session. */
  predicate NewSession(s: Sys, csr: Csr) {
    csr.swrst || (csr.start && s.ld.fsm.Idle?)
  }

  function Step(s: Sys, a: Action): Sys {
    match a
    case Clock(pins) => Edge(s, false, false, false, pins)
    case WriteCsr(csr, bootEn, pins) =>
      var t := Edge(s.(msbf := csr.msbf, clkDiv := csr.clkDiv), csr.start && bootEn, csr.swrst, csr.exit, pins);
      if NewSession(s, csr) then t.(pushed := t.q, popped := [], drained := [], wire := []) else t
    case WriteR0(dsize, last) => s.(r0Size := dsize, r0Last := last)
    case WriteR1(word) =>
      if |s.q| < FIFO_SIZE then
        var e := Entry(word, s.r0Size, s.r0Last);
        s.(q := s.q + [e], pushed := s.pushed + [e], sawRoom := false)
      else
        s.(lost := s.lost + 1, sawRoom := false)
    case ReadFifoCsr => s.(sawRoom := |s.q| < FIFO_SIZE)
  }

  function RunActs(s: Sys, acts: seq<Action>): Sys {
    if acts == [] then s else Step(RunActs(s, acts[..|acts| - 1]), acts[|acts| - 1])
  }

  /** The invariant of the whole path. */
  ghost predicate Coherent(s: Sys) {
    && Clocked(s.ld, Payloads(s.msbf, s.popped), s.wire)
    && s.popped + s.drained + s.q == s.pushed
    && (s.ld.fsm.ReadFifo2? ==> s.popped != [] && s.out == s.popped[|s.popped| - 1])
    && (s.drained != [] ==> s.ld.fsm.Idle?)
    && |s.q| <= FIFO_SIZE
    && (s.sawRoom ==> |s.q| < FIFO_SIZE)
  }

  lemma PayloadsSnoc(msbf: bool, es: seq<Entry>, e: Entry)
    ensures Payloads(msbf, es + [e]) == Payloads(msbf, es) + [PayloadOf(msbf, e)]
  {
  }

  lemma PayloadsPrefix(msbf: bool, a: seq<Entry>, b: seq<Entry>)
    requires a <= b
    ensures Payloads(msbf, a) <= Payloads(msbf, b)
  {
  }

  lemma IdleStays(s: State, i: In)
    requires s.fsm.Idle? && i.rstN && !i.start
    ensures Next(s, i).fsm.Idle?
  {
  }

  lemma PopsLeadTo(s: State, i: In)
    requires i.rstN && !i.swrst
    ensures Next(s, i).fsm.ReadFifo2? ==> s.fsm.ReadFifo2? || (s.fsm.ReadFifo? && CsrRd(s, i))
  {
    if Beginning(s.fsm) {
      BeginTargets(s, i);
    } else if !Shifting(s.fsm) {
      FinishTargets(s, i);
    } else if s.fsm.OutputBit? {
      OutputFields(s, i);
    } else if s.fsm.ClockEdge? {
      EdgeFields(s, i);
    }
  }

  lemma LatestPayload(msbf: bool, es: seq<Entry>)
    ensures |Payloads(msbf, es)| == |es|
    ensures es != [] ==> Payloads(msbf, es)[|es| - 1] == PayloadOf(msbf, es[|es| - 1])
  {
  }

  lemma EdgeClocked(s: Sys, swrst: bool, startup: bool, pins: Pins)
    requires Coherent(s)
    ensures var t := Edge(s, false, swrst, startup, pins);
      t.msbf == s.msbf && Clocked(t.ld, Payloads(t.msbf, t.popped), t.wire)
  {
    hide Clocked, Next, EdgeBits, Payloads, Ordered;
    var i := LoaderIn(s, false, swrst, startup, pins);
    var p := if s.q == [] then PayloadOf(s.msbf, s.out) else PayloadOf(s.msbf, s.q[0]);
    LatestPayload(s.msbf, s.popped);
    ClockedStep(s.ld, i, Payloads(s.msbf, s.popped), p, s.wire);
    if s.q != [] {
      PayloadsSnoc(s.msbf, s.popped, s.q[0]);
    }
  }

  lemma EdgeConserves(s: Sys, swrst: bool, startup: bool, pins: Pins)
    requires s.popped + s.drained + s.q == s.pushed
    requires s.drained != [] ==> s.ld.fsm.Idle?
    ensures var t := Edge(s, false, swrst, startup, pins);
      && t.popped + t.drained + t.q == t.pushed == s.pushed
      && |t.q| <= |s.q| && t.sawRoom == s.sawRoom && t.lost == s.lost
      && (t.drained != s.drained ==> s.ld.fsm.Idle?)
  {
    hide Next, EdgeBits;
    if s.q != [] {
      FirstMoves(s.popped, s.drained, s.q);
    }
  }

  lemma FirstMoves(popped: seq<Entry>, drained: seq<Entry>, q: seq<Entry>)
    requires q != []
    ensures popped + (drained + [q[0]]) + q[1..] == popped + drained + q
    ensures drained == [] ==> popped + [q[0]] + drained + q[1..] == popped + drained + q
  {
    assert q == [q[0]] + q[1..];
  }

  lemma EdgeState(s: Sys, swrst: bool, startup: bool, pins: Pins)
    ensures var t := Edge(s, false, swrst, startup, pins);
      && (s.ld.fsm.Idle? ==> t.ld.fsm.Idle?)
      && (t.ld.fsm.ReadFifo2? ==>
            if s.ld.fsm.ReadFifo2? then t.out == s.out && t.popped == s.popped
            else s.q != [] && t.out == s.q[0] && t.popped == s.popped + [s.q[0]])
  {
    var i := LoaderIn(s, false, swrst, startup, pins);
    if swrst {
      assert Next(s.ld, i).fsm.Idle?;
    } else {
      PopsLeadTo(s.ld, i);
      if s.ld.fsm.Idle? {
        IdleStays(s.ld, i);
      }
    }
  }

  /** A clock edge that does not start a session keeps the path coherent. */
  lemma EdgeCoherent(s: Sys, swrst: bool, startup: bool, pins: Pins)
    requires Coherent(s)
    ensures Coherent(Edge(s, false, swrst, startup, pins))
  {
    EdgeClocked(s, swrst, startup, pins);
    EdgeConserves(s, swrst, startup, pins);
    EdgeState(s, swrst, startup, pins);
  }

  lemma NewSessionCoherent(s: Sys, csr: Csr, bootEn: bool, pins: Pins)
    requires NewSession(s, csr) && |s.q| <= FIFO_SIZE && (s.sawRoom ==> |s.q| < FIFO_SIZE)
    ensures var t := Step(s, WriteCsr(csr, bootEn, pins));
      Coherent(t) && t.pushed == t.q && t.popped == [] && t.wire == [] && t.msbf == csr.msbf
    ensures s.q == [] ==> Step(s, WriteCsr(csr, bootEn, pins)).q == []
    ensures csr.swrst ==> Step(s, WriteCsr(csr, bootEn, pins)).ld.fsm.Idle?
  {
    var t := Step(s, WriteCsr(csr, bootEn, pins));
    assert t.ld.fsm.Idle? || t.ld.fsm.ExtendProg?;
  }

  /** The actions of a session, between its START and its EXIT. */
  predicate InSession(acts: seq<Action>) {
    forall j :: 0 <= j < |acts| ==> !acts[j].WriteCsr?
  }

  /** Clock edges only. */
  predicate Clocks(acts: seq<Action>) { forall j :: 0 <= j < |acts| ==> acts[j].Clock? }

  lemma StepCoherent(s: Sys, a: Action)
    requires Coherent(s) && !a.WriteCsr?
    ensures Coherent(Step(s, a)) && Step(s, a).msbf == s.msbf
  {
    match a
    case Clock(pins) => EdgeCoherent(s, false, false, pins);
    case WriteR0(dsize, last) =>
    case WriteR1(word) =>
      if |s.q| < FIFO_SIZE {
        var e := Entry(word, s.r0Size, s.r0Last);
        assert s.popped + s.drained + (s.q + [e]) == s.popped + s.drained + s.q + [e];
      }
    case ReadFifoCsr =>
  }

  lemma {:induction false} RunCoherent(s: Sys, acts: seq<Action>)
    requires Coherent(s) && InSession(acts)
    ensures Coherent(RunActs(s, acts)) && RunActs(s, acts).msbf == s.msbf
  {
    if acts != [] {
      RunCoherent(s, acts[..|acts| - 1]);
      StepCoherent(RunActs(s, acts[..|acts| - 1]), acts[|acts| - 1]);
    }
  }

  // ---- how a session's end shows in the loader ----

  /** Every bit of every popped entry is out, the last of them marked XLAST. */
  ghost predicate Complete(s: Sys) {
    var ps := Payloads(s.msbf, s.popped);
    ps != [] && ps[|ps| - 1].last && s.wire == Bits(Stream(ps))
  }

  /** Within a session the loader is back in IDLE with entries popped only when they are complete,
      and it reports success only there or in GOT_DONE. */
  predicate Reported(ld: State, popped: bool, complete: bool) {
    && !ld.fsm.StartupCclk0? && !ld.fsm.StartupCclk1?
    && (ld.fsm.Idle? && popped ==> complete)
    && (ld.csrDone && !ld.csrError ==> ld.fsm.GotDone? || (ld.fsm.Idle? && popped))
  }

  ghost predicate Accounted(s: Sys) { Reported(s.ld, s.popped != [], Complete(s)) }

  /** Waiting for DONE, or done with it. */
  predicate Finished(s: Sys) { s.ld.fsm.WaitDone? || (s.ld.fsm.Idle? && s.popped != []) }

  lemma FinishedComplete(s: Sys)
    requires Coherent(s) && Accounted(s) && Finished(s)
    ensures Complete(s)
  {
    hide Bits, Stream;
    LatestPayload(s.msbf, s.popped);
  }

  /** The loader alone: what was popped changes only while it is shifting. */
  lemma ReportedStep(s: State, i: In, popped: bool, complete: bool)
    requires i.rstN && !i.swrst && !i.start && !i.startup && Reported(s, popped, complete)
    requires s.fsm.WaitDone? ==> popped && complete
    requires s.fsm.ExtendProg? || s.fsm.WaitInit? || s.fsm.WaitInit2? ==> !popped
    ensures Reported(Next(s, i), popped, complete)
    ensures Shifting(s.fsm) ==> forall p, c :: Reported(Next(s, i), p, c)
  {
    hide Next;
    if s.fsm.WaitDone? {
      LoaderTiming.WaitDoneEnds(s, i);
    } else if Shifting(s.fsm) {
      ShiftTargetsDone(s, i);
      FlagsKept(s, i);
    } else if s.fsm.GotDone? {
      GotDoneStays(s, i);
    } else {
      BeginTargets(s, i);
      LoaderTiming.FlagMoves(s, i);
    }
  }

  lemma GotDoneStays(s: State, i: In)
    requires s.fsm.GotDone? && i.rstN && !i.swrst && !i.startup
    ensures Next(s, i).fsm.GotDone?
  {
  }

  /** Outside the shifting states neither the entries nor the wire change. */
  lemma EdgeKeeps(s: Sys, pins: Pins)
    requires !Shifting(s.ld.fsm) && !s.ld.fsm.StartupCclk1?
    ensures var t := Edge(s, false, false, false, pins); t.popped == s.popped && t.wire == s.wire && t.msbf == s.msbf
  {
    var i := LoaderIn(s, false, false, false, pins);
    if Beginning(s.ld.fsm) {
      NoEdgeBeginning(s.ld, i);
    } else {
      EdgeFinishing(s.ld, i);
    }
    hide Next;
    assert s.wire + [] == s.wire;
  }

  lemma AccountedEdge(s: Sys, pins: Pins)
    requires Coherent(s) && Accounted(s)
    ensures Accounted(Edge(s, false, false, false, pins))
  {
    var i := LoaderIn(s, false, false, false, pins);
    PoppedInSession(s);
    ReportedStep(s.ld, i, s.popped != [], Complete(s));
    if !Shifting(s.ld.fsm) {
      EdgeKeeps(s, pins);
    }
    hide Next, Complete, Coherent, Reported;
    var t := Edge(s, false, false, false, pins);
    if !Shifting(s.ld.fsm) {
      SameComplete(s, t);
    }
    assert t.ld == Next(s.ld, i);
  }

  lemma SameComplete(s: Sys, t: Sys)
    requires t.popped == s.popped && t.wire == s.wire && t.msbf == s.msbf
    ensures Complete(t) == Complete(s)
  {
  }

  lemma PoppedInSession(s: Sys)
    requires Coherent(s) && Accounted(s)
    ensures s.ld.fsm.WaitDone? ==> s.popped != [] && Complete(s)
    ensures s.ld.fsm.ExtendProg? || s.ld.fsm.WaitInit? || s.ld.fsm.WaitInit2? ==> s.popped == []
  {
    LatestPayload(s.msbf, s.popped);
    if s.ld.fsm.WaitDone? {
      FinishedComplete(s);
    }
  }

  lemma {:induction false} RunAccounted(s: Sys, acts: seq<Action>)
    requires Coherent(s) && Accounted(s) && InSession(acts)
    ensures Accounted(RunActs(s, acts))
  {
    if acts != [] {
      var before := acts[..|acts| - 1];
      RunAccounted(s, before);
      RunCoherent(s, before);
      AccountedStep(RunActs(s, before), acts[|acts| - 1]);
    }
  }

  lemma AccountedStep(s: Sys, a: Action)
    requires Coherent(s) && Accounted(s) && !a.WriteCsr?
    ensures Accounted(Step(s, a))
  {
    hide Edge, Complete, Coherent, Reported;
    if a.Clock? {
      AccountedEdge(s, a.pins);
    } else {
      SameComplete(s, Step(s, a));
    }
  }

  // ---- conservation ----

  /** The host pushes only after it has seen FULL clear. */
  predicate Polite(s: Sys, acts: seq<Action>) {
    forall j :: 0 <= j < |acts| && acts[j].WriteR1? ==> RunActs(s, acts[..j]).sawRoom
  }

  /** The entries a list of host actions asks for: each R1 word with the R0 fields then current. */
  function Pushes(acts: seq<Action>, dsize: U2, last: bool): seq<Entry>
  {
    if acts == [] then []
    else
      match acts[0]
      case WriteR0(d, l) => Pushes(acts[1..], d, l)
      case WriteR1(w) => [Entry(w, dsize, last)] + Pushes(acts[1..], dsize, last)
      case _ => Pushes(acts[1..], dsize, last)
  }

  function R0After(acts: seq<Action>, dsize: U2, last: bool): (U2, bool) {
    if acts == [] then (dsize, last)
    else if acts[|acts| - 1].WriteR0? then (acts[|acts| - 1].dsize, acts[|acts| - 1].last)
    else R0After(acts[..|acts| - 1], dsize, last)
  }

  lemma {:induction false} PushesSnoc(acts: seq<Action>, a: Action, dsize: U2, last: bool)
    ensures var (d, l) := R0After(acts, dsize, last);
      Pushes(acts + [a], dsize, last) == Pushes(acts, dsize, last) + (if a.WriteR1? then [Entry(a.word, d, l)] else [])
  {
    if acts == [] {
      assert acts + [a] == [a];
      assert Pushes([a][1..], dsize, last) == [];
    } else {
      var d1, l1 := if acts[0].WriteR0? then acts[0].dsize else dsize, if acts[0].WriteR0? then acts[0].last else last;
      assert (acts + [a])[1..] == acts[1..] + [a];
      PushesSnoc(acts[1..], a, d1, l1);
      R0AfterFirst(acts, dsize, last);
    }
  }

  lemma {:induction false} R0AfterFirst(acts: seq<Action>, dsize: U2, last: bool)
    requires acts != []
    ensures R0After(acts, dsize, last) ==
      if acts[0].WriteR0? then R0After(acts[1..], acts[0].dsize, acts[0].last) else R0After(acts[1..], dsize, last)
  {
    var n := |acts| - 1;
    if n > 0 && !acts[n].WriteR0? {
      R0AfterFirst(acts[..n], dsize, last);
      assert acts[..n][1..] == acts[1..][..n - 1];
    } else if n == 0 {
      assert acts[1..] == [] && acts[..0] == [];
    }
  }

  lemma StepPushes(s: Sys, a: Action)
    requires !a.WriteCsr?
    ensures Step(s, a).pushed == s.pushed +
      if a.WriteR1? && |s.q| < FIFO_SIZE then [Entry(a.word, s.r0Size, s.r0Last)] else []
    ensures Step(s, a).lost == s.lost + if a.WriteR1? && |s.q| >= FIFO_SIZE then 1 else 0
    ensures (Step(s, a).r0Size, Step(s, a).r0Last) == if a.WriteR0? then (a.dsize, a.last) else (s.r0Size, s.r0Last)
  {
  }

  lemma {:induction false} PushedInOrder(s: Sys, acts: seq<Action>)
    requires Coherent(s) && InSession(acts) && Polite(s, acts)
    ensures var t := RunActs(s, acts);
      t.lost == s.lost && t.pushed == s.pushed + Pushes(acts, s.r0Size, s.r0Last)
    ensures (RunActs(s, acts).r0Size, RunActs(s, acts).r0Last) == R0After(acts, s.r0Size, s.r0Last)
  {
    hide Coherent, InSession, Polite, Step;
    if acts != [] {
      var n := |acts| - 1;
      var before := acts[..n];
      PoliteBefore(s, acts);
      PushedInOrder(s, before);
      HasRoom(s, acts, n);
      PushedSnoc(s, RunActs(s, before), before, acts[n]);
      assert before + [acts[n]] == acts;
    }
  }

  lemma PoliteBefore(s: Sys, acts: seq<Action>)
    requires acts != [] && InSession(acts) && Polite(s, acts)
    ensures var n := |acts| - 1; InSession(acts[..n]) && Polite(s, acts[..n]) && !acts[n].WriteCsr?
  {
    hide RunActs;
    assert forall j :: 0 <= j < |acts| - 1 ==> acts[..|acts| - 1][..j] == acts[..j];
  }

  lemma PushedSnoc(s: Sys, t: Sys, before: seq<Action>, a: Action)
    requires t.pushed == s.pushed + Pushes(before, s.r0Size, s.r0Last)
    requires (t.r0Size, t.r0Last) == R0After(before, s.r0Size, s.r0Last)
    requires !a.WriteCsr? && (a.WriteR1? ==> |t.q| < FIFO_SIZE)
    ensures var u := Step(t, a);
      u.lost == t.lost && u.pushed == s.pushed + Pushes(before + [a], s.r0Size, s.r0Last)
    ensures (Step(t, a).r0Size, Step(t, a).r0Last) == R0After(before + [a], s.r0Size, s.r0Last)
  {
    StepPushes(t, a);
    PushesSnoc(before, a, s.r0Size, s.r0Last);
    assert (before + [a])[..|before|] == before;
  }

  lemma HasRoom(s: Sys, acts: seq<Action>, n: nat)
    requires Coherent(s) && InSession(acts) && Polite(s, acts) && n < |acts|
    ensures acts[n].WriteR1? ==> |RunActs(s, acts[..n]).q| < FIFO_SIZE
  {
    RunCoherent(s, acts[..n]);
  }

  /** Under any interleaving of a polite host with the clock, no entry is lost, duplicated or
      reordered, R0 fields stay with their R1 word, and at most 256 entries wait. */
  lemma FifoConservation(s: Sys, acts: seq<Action>)
    requires Coherent(s) && InSession(acts) && Polite(s, acts)
    ensures var t := RunActs(s, acts);
      && t.lost == s.lost
      && |t.q| <= FIFO_SIZE
      && t.popped + t.drained + t.q == t.pushed
      && t.pushed == s.pushed + Pushes(acts, s.r0Size, s.r0Last)
  {
    RunCoherent(s, acts);
    PushedInOrder(s, acts);
  }

  // ---- what reaches the wire ----

  /** The state right after a START write with the byte order MSB first and an empty FIFO. */
  ghost predicate Started(s: Sys) {
    Coherent(s) && Accounted(s) && s.msbf && s.pushed == [] && s.wire == []
  }

  lemma StartedRun(s: Sys, acts: seq<Action>)
    requires Started(s) && InSession(acts) && Polite(s, acts)
    ensures Coherent(RunActs(s, acts)) && Accounted(RunActs(s, acts)) && RunActs(s, acts).msbf
    ensures RunActs(s, acts).pushed == Pushes(acts, s.r0Size, s.r0Last)
  {
    hide Accounted;
    RunAccounted(s, acts);
    RunCoherent(s, acts);
    PushedInOrder(s, acts);
  }

  lemma WireOfPushed(t: Sys)
    requires Coherent(t) && t.msbf
    ensures t.wire <= Bits(Stream(Payloads(true, t.pushed)))
  {
    var some, all := Payloads(true, t.popped), Payloads(true, t.pushed);
    ClockedPrefix(t.ld, some, t.wire);
    assert t.popped <= t.pushed;
    PayloadsPrefix(true, t.popped, t.pushed);
    StreamPrefix(some, all);
    BitsPrefix(Stream(some), Stream(all));
  }

  /** The wire never carries anything but a prefix of what the host asked to send. */
  lemma WirePrefix(s: Sys, acts: seq<Action>)
    requires Started(s) && InSession(acts) && Polite(s, acts)
    ensures RunActs(s, acts).wire <= Bits(Stream(Payloads(true, Pushes(acts, s.r0Size, s.r0Last))))
  {
    StartedRun(s, acts);
    WireOfPushed(RunActs(s, acts));
  }

  /** XLAST, if anywhere, marks only the final payload. */
  predicate LastOnlyAtEnd(ps: seq<Payload>) {
    forall j :: 0 <= j < |ps| && ps[j].last ==> j == |ps| - 1
  }

  lemma WireOfAll(t: Sys)
    requires Coherent(t) && t.msbf && Complete(t) && LastOnlyAtEnd(Payloads(true, t.pushed))
    ensures t.wire == Bits(Stream(Payloads(true, t.pushed)))
  {
    var some, all := Payloads(true, t.popped), Payloads(true, t.pushed);
    assert t.popped <= t.pushed;
    var n := |t.popped| - 1;
    assert some[n].last && all[n] == some[n];
    assert t.popped == t.pushed;
  }

  /** Once the loader waits for DONE, and for ever after in the session, every bit of every entry
      has been clocked out. */
  lemma WireComplete(s: Sys, acts: seq<Action>)
    requires Started(s) && InSession(acts) && Polite(s, acts)
    requires LastOnlyAtEnd(Payloads(true, Pushes(acts, s.r0Size, s.r0Last)))
    requires Finished(RunActs(s, acts))
    ensures RunActs(s, acts).wire == Bits(Stream(Payloads(true, Pushes(acts, s.r0Size, s.r0Last))))
  {
    StartedRun(s, acts);
    FinishedComplete(RunActs(s, acts));
    WireOfAll(RunActs(s, acts));
  }

  // ---- a transfer without XLAST ----

  predicate NoXlast(es: seq<Entry>) { forall e :: e in es ==> !e.last }

  /** The only clock edges at which a loader that is not waiting for DONE looks at the pin. */
  predicate SamplesDone(s: Sys) { s.ld.fsm.OutputBit? && s.ld.tick }

  /** The two things that end a transfer without XLAST: DONE high at a bit output, or the end of
      the wait for INIT_B. */
  predicate Ends(s: Sys, a: Action) {
    a.Clock? && ((SamplesDone(s) && a.pins.done) || (s.ld.fsm.WaitInit? && s.ld.timeout == 0))
  }

  /** The transfer has been started, is not done, and no XLAST is under way. */
  predicate Unfinished(s: Sys) {
    && (s.ld.fsm.ExtendProg? || s.ld.fsm.WaitInit? || s.ld.fsm.WaitInit2? || Shifting(s.ld.fsm))
    && !s.ld.csrDone
    && (s.ld.fsm.OutputBit? || s.ld.fsm.ClockEdge? ==> !s.ld.dLast)
    && (s.ld.fsm.ReadFifo2? ==> !s.out.last)
  }

  lemma UnfinishedEdge(s: Sys, pins: Pins)
    requires Unfinished(s) && NoXlast(s.q)
    ensures var t := Edge(s, false, false, false, pins);
      if Ends(s, Clock(pins)) then !Unfinished(t) else Unfinished(t)
  {
    hide Next;
    if Shifting(s.ld.fsm) {
      UnfinishedShift(s, pins);
    } else {
      UnfinishedBegin(s, pins);
    }
  }

  lemma UnfinishedBegin(s: Sys, pins: Pins)
    requires Unfinished(s) && !Shifting(s.ld.fsm)
    ensures var t := Edge(s, false, false, false, pins);
      if s.ld.fsm.WaitInit? && s.ld.timeout == 0 then t.ld.csrDone else Unfinished(t)
  {
    hide Next, EdgeBits;
    var i := LoaderIn(s, false, false, false, pins);
    BeginTargets(s.ld, i);
    LoaderTiming.FlagMoves(s.ld, i);
    if s.ld.fsm.WaitInit? {
      LoaderTiming.WaitInitOutcome(s.ld, i);
    }
  }

  lemma UnfinishedShift(s: Sys, pins: Pins)
    requires Unfinished(s) && NoXlast(s.q) && Shifting(s.ld.fsm)
    ensures var t := Edge(s, false, false, false, pins);
      if SamplesDone(s) && pins.done then t.ld.fsm.GotDone? else Unfinished(t)
  {
    var i := LoaderIn(s, false, false, false, pins);
    FlagsKept(s.ld, i);
    if s.ld.fsm.ReadFifo? {
      UnfinishedPop(s, pins);
    } else if s.ld.fsm.ReadFifo2? {
      LatchFields(s.ld, i);
    } else if s.ld.fsm.OutputBit? {
      OutputFields(s.ld, i);
    } else {
      EdgeFields(s.ld, i);
    }
  }

  lemma UnfinishedPop(s: Sys, pins: Pins)
    requires Unfinished(s) && NoXlast(s.q) && s.ld.fsm.ReadFifo?
    ensures Unfinished(Edge(s, false, false, false, pins))
  {
    if s.q != [] {
      assert s.q[0] in s.q;
    }
  }

  lemma UnfinishedStep(s: Sys, a: Action)
    requires Coherent(s) && NoXlast(s.pushed) && Unfinished(s) && !a.WriteCsr?
    ensures Unfinished(Step(s, a)) <==> !Ends(s, a)
  {
    assert NoXlast(s.q) by {
      assert forall e :: e in s.q ==> e in s.popped + s.drained + s.q;
    }
    hide Coherent;
    if a.Clock? {
      UnfinishedEdge(s, a.pins);
      hide Edge, Unfinished;
    }
  }

  lemma {:induction false} PushedGrows(s: Sys, acts: seq<Action>, j: nat)
    requires InSession(acts) && j <= |acts|
    ensures RunActs(s, acts[..j]).pushed <= RunActs(s, acts).pushed
  {
    if j < |acts| {
      var before := acts[..|acts| - 1];
      assert before[..j] == acts[..j];
      PushedGrows(s, before, j);
      StepPushes(RunActs(s, before), acts[|acts| - 1]);
    } else {
      assert acts[..j] == acts;
    }
  }

  /** Neither end has come in the first `n` actions. */
  predicate NotEnded(s: Sys, acts: seq<Action>, n: nat)
    requires n <= |acts|
  {
    forall j :: 0 <= j < n ==> !Ends(RunActs(s, acts[..j]), acts[j])
  }

  predicate UnfinishedThrough(s: Sys, acts: seq<Action>, n: nat)
    requires n <= |acts|
  {
    forall j :: 0 <= j <= n ==> Unfinished(RunActs(s, acts[..j]))
  }

  /** As long as no XLAST has been pushed, a started transfer stays unfinished, with CSR.DONE at
      0 however long the host polls, exactly as long as DONE is low at every bit output and the
      wait for INIT_B does not run out: a DONE that rises after the last bit is never reported. */
  lemma {:induction false} UnfinishedExactly(s: Sys, acts: seq<Action>, n: nat)
    requires Coherent(s) && Unfinished(s) && InSession(acts) && n <= |acts| && NoXlast(RunActs(s, acts).pushed)
    ensures UnfinishedThrough(s, acts, n) <==> NotEnded(s, acts, n)
    ensures UnfinishedThrough(s, acts, n) ==> !RunActs(s, acts[..n]).ld.csrDone
    decreases n
  {
    if n == 0 {
      assert acts[..0] == [];
    } else {
      UnfinishedExactly(s, acts, n - 1);
      UnfinishedOnce(s, acts, n - 1);
    }
    hide RunActs, Ends;
  }

  lemma UnfinishedOnce(s: Sys, acts: seq<Action>, n: nat)
    requires Coherent(s) && InSession(acts) && n < |acts| && NoXlast(RunActs(s, acts).pushed)
    ensures UnfinishedThrough(s, acts, n + 1) <==>
      UnfinishedThrough(s, acts, n) && !Ends(RunActs(s, acts[..n]), acts[n])
    ensures NotEnded(s, acts, n + 1) <==> NotEnded(s, acts, n) && !Ends(RunActs(s, acts[..n]), acts[n])
  {
    hide RunActs, Unfinished, Ends, Coherent;
    if Unfinished(RunActs(s, acts[..n])) {
      OneMoreAction(s, acts, n);
    }
  }

  lemma OneMoreAction(s: Sys, acts: seq<Action>, n: nat)
    requires Coherent(s) && InSession(acts) && n < |acts| && NoXlast(RunActs(s, acts).pushed)
    requires Unfinished(RunActs(s, acts[..n]))
    ensures Unfinished(RunActs(s, acts[..n + 1])) <==> !Ends(RunActs(s, acts[..n]), acts[n])
  {
    hide Unfinished, Ends, Step, Coherent;
    assert acts[..n + 1][..n] == acts[..n];
    RunCoherent(s, acts[..n]);
    PushedGrows(s, acts, n);
    UnfinishedStep(RunActs(s, acts[..n]), acts[n]);
  }

  // ---- PROG_B ----

  lemma PinStep(s: Sys, a: Action)
    requires LoaderTiming.PinHeld(s.ld)
    ensures var t := Step(s, a);
      LoaderTiming.PinHeld(t.ld) && (|t.wire| > |s.wire| ==> s.ld.programB && t.ld.programB && s.ld.fsm.ClockEdge?)
  {
    hide Edge, LoaderTiming.PinHeld;
    match a
    case Clock(pins) => EdgePin(s, false, false, false, pins);
    case WriteCsr(csr, bootEn, pins) =>
      EdgePin(s.(msbf := csr.msbf, clkDiv := csr.clkDiv), csr.start && bootEn, csr.swrst, csr.exit, pins);
    case _ =>
  }

  lemma EdgePin(s: Sys, start: bool, swrst: bool, startup: bool, pins: Pins)
    requires LoaderTiming.PinHeld(s.ld)
    ensures var t := Edge(s, start, swrst, startup, pins);
      && LoaderTiming.PinHeld(t.ld)
      && (!swrst && |t.wire| > |s.wire| ==> s.ld.programB && t.ld.programB && s.ld.fsm.ClockEdge?)
  {
    hide Next, EdgeBits, LoaderTiming.PinHeld;
    var i := LoaderIn(s, start, swrst, startup, pins);
    LoaderTiming.PinStep(s.ld, i);
    if !swrst && EdgeBits(s.ld, Next(s.ld, i)) != [] {
      LoaderTiming.EdgeWithPin(s.ld, i);
    }
  }

  lemma {:induction false} RunPin(s: Sys, acts: seq<Action>)
    requires LoaderTiming.PinHeld(s.ld)
    ensures LoaderTiming.PinHeld(RunActs(s, acts).ld)
  {
    hide Step, LoaderTiming.PinHeld;
    if acts != [] {
      RunPin(s, acts[..|acts| - 1]);
      PinStep(RunActs(s, acts[..|acts| - 1]), acts[|acts| - 1]);
    }
  }

  /** In every run, across any number of sessions: a bit goes onto the wire only while PROG_B is
      high, before and after its edge. */
  lemma WireWithProgBHigh(s: Sys, acts: seq<Action>, j: nat)
    requires LoaderTiming.PinHeld(s.ld) && j < |acts|
    ensures var t, u := RunActs(s, acts[..j]), RunActs(s, acts[..j + 1]);
      |u.wire| > |t.wire| ==> t.ld.programB && u.ld.programB && t.ld.fsm.ClockEdge?
  {
    hide Step, LoaderTiming.PinHeld;
    assert acts[..j + 1][..j] == acts[..j];
    RunPin(s, acts[..j]);
    PinStep(RunActs(s, acts[..j]), acts[j]);
  }

  // ---- CSR.DONE without CSR.ERROR is a promise about the pin ----

  predicate Honest(s: State, seen: bool) {
    && (s.csrDone && !s.csrError ==> seen)
    && (s.fsm.GotDone? || s.fsm.StartupCclk0? || s.fsm.StartupCclk1? ==> seen)
  }

  lemma HonestStep(s: State, i: In, seen: bool)
    requires Honest(s, seen)
    ensures Honest(Next(s, i), SeenAfter(s, i, seen))
  {
    if !i.rstN || i.swrst {
    } else if Beginning(s.fsm) {
      HonestBegin(s, i, seen);
    } else if Shifting(s.fsm) {
      FlagsKept(s, i);
      ShiftTargetsDone(s, i);
    } else {
      HonestFinish(s, i, seen);
    }
  }

  lemma HonestBegin(s: State, i: In, seen: bool)
    requires Honest(s, seen) && i.rstN && !i.swrst && Beginning(s.fsm)
    ensures Honest(Next(s, i), SeenAfter(s, i, seen))
  {
    BeginTargets(s, i);
    BeginFlags(s, i);
  }

  lemma BeginFlags(s: State, i: In)
    requires i.rstN && !i.swrst && Beginning(s.fsm)
    ensures var t := Next(s, i);
      if Starting(s, i) then !t.csrDone && !t.csrError
      else t.csrDone && !t.csrError ==> s.csrDone && !s.csrError
  {
    hide ShiftFsm, FinishFsm, DivideClock;
  }

  lemma ShiftTargetsDone(s: State, i: In)
    requires i.rstN && !i.swrst && Shifting(s.fsm)
    ensures var f := Next(s, i).fsm; Shifting(f) || f.WaitDone? || (f.GotDone? && i.done)
  {
    match s.fsm
    case ReadFifo =>
    case ReadFifo2 =>
    case OutputBit =>
    case ClockEdge =>
  }

  lemma HonestFinish(s: State, i: In, seen: bool)
    requires Honest(s, seen) && i.rstN && !i.swrst && !Beginning(s.fsm) && !Shifting(s.fsm)
    ensures Honest(Next(s, i), SeenAfter(s, i, seen))
  {
    match s.fsm
    case WaitDone =>
    case GotDone =>
    case StartupCclk0 =>
    case StartupCclk1 =>
  }

  lemma StepHonest(s: Sys, a: Action)
    requires Honest(s.ld, s.doneSeen)
    ensures Honest(Step(s, a).ld, Step(s, a).doneSeen)
  {
    hide Edge, Honest;
    if a.Clock? {
      EdgeHonest(s, false, false, false, a.pins);
    } else if a.WriteCsr? {
      var t := s.(msbf := a.csr.msbf, clkDiv := a.csr.clkDiv);
      EdgeHonest(t, a.csr.start && a.bootEn, a.csr.swrst, a.csr.exit, a.pins);
    }
  }

  lemma EdgeHonest(s: Sys, start: bool, swrst: bool, startup: bool, pins: Pins)
    requires Honest(s.ld, s.doneSeen)
    ensures var t := Edge(s, start, swrst, startup, pins); Honest(t.ld, t.doneSeen)
  {
    HonestStep(s.ld, LoaderIn(s, start, swrst, startup, pins), s.doneSeen);
  }

  /** A SWRST makes the flags honest whatever the loader was doing before. */
  lemma SwrstHonest(s: Sys, csr: Csr, bootEn: bool, pins: Pins)
    requires csr.swrst
    ensures var t := Step(s, WriteCsr(csr, bootEn, pins));
      Honest(t.ld, t.doneSeen) && !t.doneSeen && !t.ld.csrDone
  {
  }

  /** After a SWRST, in any run: CSR.DONE without CSR.ERROR means DONE was sampled high
      since the most recent SWRST or START. */
  lemma {:induction false} SuccessIsSound(s: Sys, csr: Csr, bootEn: bool, pins: Pins, acts: seq<Action>)
    requires csr.swrst
    ensures var t := RunActs(Step(s, WriteCsr(csr, bootEn, pins)), acts);
      Honest(t.ld, t.doneSeen) && (t.ld.csrDone && !t.ld.csrError ==> t.doneSeen)
  {
    var u := Step(s, WriteCsr(csr, bootEn, pins));
    if acts == [] {
      SwrstHonest(s, csr, bootEn, pins);
    } else {
      SuccessIsSound(s, csr, bootEn, pins, acts[..|acts| - 1]);
      StepHonest(RunActs(u, acts[..|acts| - 1]), acts[|acts| - 1]);
    }
  }
}
