/** A bitstream whose size is a multiple of 4, sent by the flasher's direct path: no entry is
    marked XLAST, and a DONE that rises after the last bit is never reported. */
module LateDone {
  import opened Bytes
  import opened Serialiser
  import opened HostPath
  import opened Producers
  import Board
  import HostProgress
  import LoaderTiming
  import XilinxLoader

  /** The entries pushed stand for `data`, as `program_afpga` cuts it. */
  ghost predicate Sent(s: Sys, data: seq<Byte>) { Payloads(true, s.pushed) == AfpgaPayloads(data) }

  /** START has been taken. */
  ghost predicate UnderWay(s: Sys) { Started(s) && s.ld.fsm.ExtendProg? && !s.ld.csrDone }

  lemma SentWithoutXlast(s: Sys, data: seq<Byte>)
    requires Sent(s, data) && |data| % 4 == 0
    ensures NoXlast(s.pushed)
  {
    forall j | 0 <= j < |s.pushed|
      ensures !s.pushed[j].last
    {
      assert Payloads(true, s.pushed)[j].last == s.pushed[j].last;
    }
  }

  /** For every run of the tool on a multiple of 4 bytes, from START on: the loader reports
      nothing, exactly as long as DONE is low at every bit output and the wait for INIT_B does not
      run out. */
  lemma NothingReported(s: Sys, acts: seq<Action>, data: seq<Byte>)
    requires UnderWay(s) && InSession(acts) && Sent(RunActs(s, acts), data) && |data| % 4 == 0
    ensures UnfinishedThrough(s, acts, |acts|) <==> NotEnded(s, acts, |acts|)
    ensures NotEnded(s, acts, |acts|) ==> !RunActs(s, acts).ld.csrDone
  {
    SentWithoutXlast(RunActs(s, acts), data);
    hide RunActs, Coherent, Accounted, Ends;
    UnfinishedExactly(s, acts, |acts|);
    assert acts[..|acts|] == acts;
  }

  /** Between `s` and `t` one of the two ends of the transfer has come. */
  ghost predicate EndsBetween(s: Sys, t: Sys) {
    exists acts :: InSession(acts) && Polite(s, acts) && RunActs(s, acts) == t && !NotEnded(s, acts, |acts|)
  }

  /** So CSR.DONE is seen only after DONE was high at a bit output, or after the timeout. */
  lemma ReportedAfterEnd(s: Sys, t: Sys, data: seq<Byte>)
    requires UnderWay(s) && Board.Reaches(s, t) && Sent(t, data) && |data| % 4 == 0 && t.ld.csrDone
    ensures EndsBetween(s, t)
  {
    var acts :| InSession(acts) && Polite(s, acts) && RunActs(s, acts) == t;
    hide RunActs, UnderWay, Sent;
    NothingReported(s, acts, data);
    assert !NotEnded(s, acts, |acts|);
  }

  // ---- everything goes out ----

  /** A transfer without XLAST that is under way, and not about to time out. */
  ghost predicate Going(s: Sys) {
    Coherent(s) && Unfinished(s) && NoXlast(s.pushed) && (s.ld.fsm.WaitInit? ==> s.ld.timeout > 0)
  }

  /** Everything pushed has been popped. */
  predicate Dry(s: Sys) { s.ld.fsm.ReadFifo? && s.q == [] }

  /** An INIT_B that falls when it is waited for and then rises, and a DONE that stays low. */
  function NextPins(s: Sys): Pins { Pins(!s.ld.fsm.WaitInit?, false) }

  lemma StepsDrop(s: Sys)
    requires Going(s) && !Dry(s)
    ensures var t := Step(s, Clock(NextPins(s)));
      Going(t) && t.pushed == s.pushed && HostProgress.StepsLeft(t) < HostProgress.StepsLeft(s)
  {
    hide Coherent, Edge, HostProgress.StepsLeft;
    var a := Clock(NextPins(s));
    StepCoherent(s, a);
    UnfinishedStep(s, a);
    StepPushes(s, a);
    HostProgress.StepWork(s, a);
    CountsOn(s, NextPins(s));
  }

  /** WAIT_INIT is entered with time left, and left at once. */
  lemma CountsOn(s: Sys, pins: Pins)
    requires Unfinished(s) && (s.ld.fsm.WaitInit? ==> s.ld.timeout > 0 && !pins.initB)
    ensures var t := Edge(s, false, false, false, pins); t.ld.fsm.WaitInit? ==> t.ld.timeout > 0
  {
    hide XilinxLoader.Next, EdgeBits;
    var i := LoaderIn(s, false, false, false, pins);
    if XilinxLoader.Next(s.ld, i).fsm.WaitInit? && !s.ld.fsm.WaitInit? {
      LoaderTiming.EntersWaitInit(s.ld, i);
    } else if s.ld.fsm.WaitInit? {
      LoaderTiming.WaitInitOutcome(s.ld, i);
    }
  }

  /** From any such state there is a run of clock edges in which everything pushed goes out. */
  lemma {:induction false} RunsDry(s: Sys) returns (acts: seq<Action>)
    requires Going(s)
    ensures Clocks(acts)
    ensures var t := RunActs(s, acts); Going(t) && Dry(t) && t.pushed == s.pushed && t.msbf == s.msbf
    decreases HostProgress.StepsLeft(s)
  {
    hide Going, HostProgress.StepsLeft;
    if Dry(s) {
      acts := [];
    } else {
      StepsDrop(s);
      var a := Clock(NextPins(s));
      var rest := RunsDry(Step(s, a));
      acts := [a] + rest;
      FirstAction(s, a, rest);
      FirstClock(a, rest);
      hide Edge, Clocks;
    }
  }

  lemma FirstClock(a: Action, rest: seq<Action>)
    requires a.Clock? && Clocks(rest)
    ensures Clocks([a] + rest)
  {
  }

  lemma FirstAction(s: Sys, a: Action, rest: seq<Action>)
    ensures RunActs(s, [a] + rest) == RunActs(Step(s, a), rest)
  {
    hide Step;
    assert [a][..0] == [];
    assert RunActs(s, [a]) == Step(s, a);
    Board.RunSplit(s, [a], rest);
  }

  /** An empty FIFO and a loader that asks for more: all bits of all entries are out. */
  lemma DryWire(s: Sys)
    requires Coherent(s) && Dry(s) && s.msbf
    ensures s.wire == Bits(Stream(Payloads(true, s.pushed)))
  {
    hide Bits, Stream;
    assert s.pushed == s.popped;
  }

  /** A run in which the entries an earlier session left in the FIFO are clocked out. */
  lemma StaleRun(s: Sys) returns (acts: seq<Action>)
    requires Going(s) && s.msbf && s.pushed == s.q
    ensures Clocks(acts) && RunActs(s, acts).wire == Bits(Stream(Payloads(true, s.q)))
  {
    acts := RunsDry(s);
    hide RunActs, Bits, Stream, Payloads, Dry;
    GoingCoherent(RunActs(s, acts));
    DryWire(RunActs(s, acts));
  }

  /** From then on nothing changes, whatever DONE does. */
  lemma {:induction false} StaysDry(s: Sys, acts: seq<Action>)
    requires Dry(s) && Clocks(acts)
    ensures var t := RunActs(s, acts);
      Dry(t) && t.ld.csrDone == s.ld.csrDone && t.wire == s.wire && t.pushed == s.pushed
  {
    if acts != [] {
      StaysDry(s, acts[..|acts| - 1]);
      DryEdge(RunActs(s, acts[..|acts| - 1]), acts[|acts| - 1].pins);
    }
  }

  lemma DryEdge(s: Sys, pins: Pins)
    requires Dry(s)
    ensures var t := Step(s, Clock(pins));
      Dry(t) && t.ld.csrDone == s.ld.csrDone && t.wire == s.wire && t.pushed == s.pushed
  {
    assert s.wire + [] == s.wire;
  }

  /** One such run, for any four bytes and any number of polls: the tool sends its one word, all of
      its bits go out, DONE rises after the last of them and stays high for `n` cycles, and CSR.DONE
      is 0 to the end. */
  lemma LateDoneRun(s: Sys, word: Word, n: nat) returns (send: seq<Action>, late: seq<Action>)
    requires UnderWay(s) && s.q == []
    ensures InSession(send + late) && Polite(s, send + late) && Sent(RunActs(s, send + late), word)
    ensures |late| == n && forall j :: 0 <= j < n ==> late[j] == Clock(Pins(true, true))
    ensures RunActs(s, send).wire == Bits(word)
    ensures !RunActs(s, send + late).ld.csrDone
  {
    hide *;
    OneWord(s, word);
    var push := PushWord(word);
    var clocks := RunsDry(RunActs(s, push));
    send := push + clocks;
    late := LateClocks(n);
    SentThenLate(s, push, clocks, late);
    OneWordSent(RunActs(s, send), word);
    OneWordSent(RunActs(s, send + late), word);
  }

  lemma LateClocks(n: nat) returns (late: seq<Action>)
    ensures Clocks(late) && |late| == n && forall j :: 0 <= j < n ==> late[j] == Clock(Pins(true, true))
  {
    late := seq(n, _ => Clock(Pins(true, true)));
  }

  lemma SentThenLate(s: Sys, push: seq<Action>, clocks: seq<Action>, late: seq<Action>)
    requires Polite(s, push) && InSession(push) && Clocks(clocks) && Clocks(late)
    requires var t := RunActs(RunActs(s, push), clocks); Going(t) && Dry(t) && t.msbf
    ensures InSession(push + clocks + late) && Polite(s, push + clocks + late)
    ensures var t, u := RunActs(s, push + clocks), RunActs(s, push + clocks + late);
      && t == RunActs(RunActs(s, push), clocks)
      && t.wire == Bits(Stream(Payloads(true, t.pushed))) && u.pushed == t.pushed && !u.ld.csrDone
  {
    hide RunActs, Going, Dry, Polite, Payloads, Bits, Stream;
    Board.RunSplit(s, push, clocks);
    Board.RunSplit(s, push + clocks, late);
    var dry := RunActs(s, push + clocks);
    GoingCoherent(dry);
    DryWire(dry);
    StaysDry(dry, late);
    ClocksPolite(s, push, clocks + late);
    assert push + clocks + late == push + (clocks + late);
  }

  /** The tool's accesses for one word. */
  function PushWord(word: Word): seq<Action> { [ReadFifoCsr, WriteR0(3, false), WriteR1(word)] }

  lemma OneWord(s: Sys, word: Word)
    requires UnderWay(s) && s.q == []
    ensures Polite(s, PushWord(word)) && InSession(PushWord(word))
    ensures var t := RunActs(s, PushWord(word)); Going(t) && t.pushed == [Entry(word, 3, false)] && t.msbf
  {
    hide Coherent, Accounted, Step, RunActs;
    ThreeActions(s, ReadFifoCsr, WriteR0(3, false), WriteR1(word));
    WordPushed(s, word);
    RunCoherent(s, PushWord(word));
  }

  lemma ThreeActions(s: Sys, x: Action, y: Action, z: Action)
    ensures RunActs(s, [x]) == Step(s, x)
    ensures RunActs(s, [x, y]) == Step(Step(s, x), y)
    ensures RunActs(s, [x, y, z]) == Step(Step(Step(s, x), y), z)
    ensures [x, y, z][..1] == [x] && [x, y, z][..2] == [x, y]
  {
    hide RunActs, Step;
    HostProgress.NoActions(s);
    HostProgress.LastAction(s, [x]);
    HostProgress.LastAction(s, [x, y]);
    HostProgress.LastAction(s, [x, y, z]);
    assert [x][..0] == [] && [x, y][..1] == [x] && [x, y, z][..2] == [x, y] && [x, y, z][..1] == [x];
  }

  lemma WordPushed(s: Sys, word: Word)
    requires s.q == [] && s.pushed == []
    ensures Step(Step(s, ReadFifoCsr), WriteR0(3, false)).sawRoom
    ensures var t := Step(Step(Step(s, ReadFifoCsr), WriteR0(3, false)), WriteR1(word));
      t.pushed == [Entry(word, 3, false)] && t.ld == s.ld && t.msbf == s.msbf
  {
  }

  lemma OneWordSent(t: Sys, word: Word)
    requires t.pushed == [Entry(word, 3, false)]
    ensures Sent(t, word) && Stream(Payloads(true, t.pushed)) == word
  {
    var p := Payload(word, false);
    assert word[..4] == word;
    assert Payloads(true, t.pushed) == [p];
    assert Groups4(word) == [word];
    assert Unmarked([word]) == [p];
    assert [p][..0] == [];
    assert Stream([p]) == [] + word == word;
  }

  lemma GoingCoherent(s: Sys)
    requires Going(s)
    ensures Coherent(s) && !s.ld.csrDone
  {
  }

  lemma ClocksPolite(s: Sys, push: seq<Action>, clocks: seq<Action>)
    requires Polite(s, push) && Clocks(clocks)
    ensures Polite(s, push + clocks)
  {
    forall j | 0 <= j < |push + clocks| && (push + clocks)[j].WriteR1?
      ensures RunActs(s, (push + clocks)[..j]).sawRoom
    {
      assert j < |push|;
      assert (push + clocks)[..j] == push[..j];
    }
  }
}
