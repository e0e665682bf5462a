/** The board as host software sees it: before every register access the hardware may run for
    any number of clock cycles with any pin values. */
module Board {
  import opened Bytes
  import opened XilinxLoader
  import opened HostPath
  import LoaderTiming

  ghost predicate Room(s: Sys) {
    |s.q| <= FIFO_SIZE && (s.sawRoom ==> |s.q| < FIFO_SIZE)
  }

  /** `t` is reached from `s` by some interleaving of clock edges with a polite host. */
  ghost predicate Reaches(s: Sys, t: Sys) {
    exists acts :: InSession(acts) && Polite(s, acts) && RunActs(s, acts) == t
  }

  lemma ReachesSelf(s: Sys)
    ensures Reaches(s, s)
  {
    assert RunActs(s, []) == s;
    assert InSession([]) && Polite(s, []);
  }

  lemma {:induction false} RunSplit(s: Sys, a: seq<Action>, b: seq<Action>)
    ensures RunActs(s, a + b) == RunActs(RunActs(s, a), b)
  {
    hide Step;
    if b == [] {
      assert a + b == a;
    } else {
      RunSplit(s, a, b[..|b| - 1]);
      assert (a + b)[..|a + b| - 1] == a + b[..|b| - 1];
    }
  }

  lemma PoliteConcat(s: Sys, a: seq<Action>, b: seq<Action>)
    requires Polite(s, a) && Polite(RunActs(s, a), b)
    ensures Polite(s, a + b)
  {
    forall j | 0 <= j < |a + b| && (a + b)[j].WriteR1?
      ensures RunActs(s, (a + b)[..j]).sawRoom
    {
      if j < |a| {
        assert (a + b)[..j] == a[..j];
      } else {
        assert (a + b)[..j] == a + b[..j - |a|];
        RunSplit(s, a, b[..j - |a|]);
      }
    }
  }

  lemma ReachesTrans(s: Sys, t: Sys, u: Sys)
    requires Reaches(s, t) && Reaches(t, u)
    ensures Reaches(s, u)
  {
    var a :| InSession(a) && Polite(s, a) && RunActs(s, a) == t;
    var b :| InSession(b) && Polite(t, b) && RunActs(t, b) == u;
    RunSplit(s, a, b);
    PoliteConcat(s, a, b);
    assert InSession(a + b);
  }

  lemma ReachesStep(s: Sys, a: Action)
    requires !a.WriteCsr? && (a.WriteR1? ==> s.sawRoom)
    ensures Reaches(s, Step(s, a))
  {
    assert [a][..0] == [];
    assert RunActs(s, [a]) == Step(RunActs(s, [a][..0]), a);
    assert InSession([a]) && Polite(s, [a]);
  }

  lemma {:induction false} RunKeeps(s: Sys, acts: seq<Action>)
    requires InSession(acts)
    ensures var t := RunActs(s, acts);
      && t.msbf == s.msbf && s.wire <= t.wire && s.pushed <= t.pushed
      && (Room(s) ==> Room(t))
    ensures Honest(s.ld, s.doneSeen) ==> Honest(RunActs(s, acts).ld, RunActs(s, acts).doneSeen)
  {
    if acts != [] {
      var t := RunActs(s, acts[..|acts| - 1]);
      RunKeeps(s, acts[..|acts| - 1]);
      StepKeeps(t, acts[|acts| - 1]);
      if Honest(t.ld, t.doneSeen) {
        StepHonest(t, acts[|acts| - 1]);
      }
    }
  }

  lemma StepKeeps(s: Sys, a: Action)
    requires !a.WriteCsr?
    ensures var t := Step(s, a);
      && t.msbf == s.msbf && s.wire <= t.wire && s.pushed <= t.pushed
      && (Room(s) ==> Room(t))
  {
  }

  /** A session only goes on: the wire grows, the byte order stays, the FIFO does not overflow,
      coherent histories and honest flags stay so. */
  lemma ReachesKeeps(s: Sys, t: Sys)
    requires Reaches(s, t)
    ensures t.msbf == s.msbf && s.wire <= t.wire && s.pushed <= t.pushed
    ensures Room(s) ==> Room(t)
    ensures Coherent(s) ==> Coherent(t)
    ensures Coherent(s) && Accounted(s) ==> Accounted(t)
    ensures Honest(s.ld, s.doneSeen) ==> Honest(t.ld, t.doneSeen)
  {
    var acts :| InSession(acts) && Polite(s, acts) && RunActs(s, acts) == t;
    RunKeeps(s, acts);
    hide Accounted;
    if Coherent(s) {
      RunCoherent(s, acts);
      if Accounted(s) {
        RunAccounted(s, acts);
      }
    }
  }

  /** Only the clock has run between `s` and `t`. */
  ghost predicate Quiet(s: Sys, t: Sys) {
    && Reaches(s, t)
    && t.pushed == s.pushed && |t.q| <= |s.q| && t.sawRoom == s.sawRoom
    && t.r0Size == s.r0Size && t.r0Last == s.r0Last
    && (s.ld.fsm.Idle? ==> t.ld.fsm.Idle? && t.ld.csrDone == s.ld.csrDone && t.ld.csrError == s.ld.csrError)
    && (s.ld.fsm.GotDone? ==> t.ld.fsm.GotDone?)
  }

  lemma QuietTrans(s: Sys, t: Sys, u: Sys)
    requires Quiet(s, t) && Quiet(t, u)
    ensures Quiet(s, u)
  {
    ReachesTrans(s, t, u);
  }

  lemma QuietClock(s: Sys, pins: Pins)
    ensures Quiet(s, Step(s, Clock(pins)))
  {
    ReachesStep(s, Clock(pins));
    EdgeState(s, false, false, pins);
    if s.ld.fsm.Idle? {
      IdleFlags(s, pins);
    } else if s.ld.fsm.GotDone? {
      GotDoneStays(s.ld, LoaderIn(s, false, false, false, pins));
    }
    hide Next;
  }

  lemma IdleFlags(s: Sys, pins: Pins)
    requires s.ld.fsm.Idle?
    ensures Step(s, Clock(pins)).ld.csrDone == s.ld.csrDone && Step(s, Clock(pins)).ld.csrError == s.ld.csrError
  {
    LoaderTiming.FlagMoves(s.ld, LoaderIn(s, false, false, false, pins));
    hide Next;
  }

  /** The clock has run, and then the CSR was written once; `enabled` says whether the bootloader
      owned the bus, which START needs. */
  ghost predicate AfterCsr(s: Sys, csr: Csr, enabled: bool, t: Sys) {
    exists before, pins :: Quiet(s, before) && t == Step(before, WriteCsr(csr, enabled, pins))
  }

  // ---- the accesses on the bus ----

  /** A register access. A look at FIFO_CSR comes with the number of entries then waiting, a read
      of IDR with whether the bootloader answered. */
  datatype Access =
    | WroteTrigger(value: Byte)
    | WroteCsr(csr: Csr)
    | WroteR0(r0: nat)
    | WroteR1(word: Word)
    | SawFifo(waiting: nat)
    | SawCsr(done: bool, error: bool)
    | SawIdr(answered: bool)

  /** What has been added to the log. */
  function Since(was: seq<Access>, now: seq<Access>): seq<Access>
    requires was <= now
  {
    now[|was|..]
  }

  lemma SinceTrans(a: seq<Access>, b: seq<Access>, c: seq<Access>)
    requires a <= b <= c
    ensures a <= c && Since(a, c) == Since(a, b) + Since(b, c)
  {
  }

  /** Looks at FIFO_CSR, all but the last of them with FULL set; `full` speaks of the last. */
  predicate Looks(seg: seq<Access>, full: bool) {
    seg != [] && forall k :: 0 <= k < |seg| ==>
      seg[k].SawFifo? && (seg[k].waiting >= FIFO_SIZE <==> k < |seg| - 1 || full)
  }

  /** Reads of CSR, none of them with DONE set but the last if `done`. */
  predicate Reads(seg: seq<Access>, done: bool) {
    (done ==> seg != []) && forall k :: 0 <= k < |seg| ==>
      seg[k].SawCsr? && (seg[k].done <==> done && k == |seg| - 1)
  }

  /** Accesses to the FIFO only. */
  predicate Pushing(seg: seq<Access>) { forall a :: a in seg ==> a.SawFifo? || a.WroteR0? || a.WroteR1? }

  lemma PushingConcat(a: seq<Access>, b: seq<Access>)
    requires Pushing(a) && Pushing(b)
    ensures Pushing(a + b)
  {
  }

  function Triggers(bytes: seq<Byte>): seq<Access> {
    seq(|bytes|, k requires 0 <= k < |bytes| => WroteTrigger(bytes[k]))
  }

  lemma TriggersSnoc(bytes: seq<Byte>, k: nat)
    requires k < |bytes|
    ensures Triggers(bytes[..k + 1]) == Triggers(bytes[..k]) + [WroteTrigger(bytes[k])]
  {
  }

  /** The CSR writes among the accesses. */
  function Csrs(seg: seq<Access>): seq<Csr> {
    if seg == [] then []
    else Csrs(seg[..|seg| - 1]) + if seg[|seg| - 1].WroteCsr? then [seg[|seg| - 1].csr] else []
  }

  lemma {:induction false} CsrsConcat(a: seq<Access>, b: seq<Access>)
    ensures Csrs(a + b) == Csrs(a) + Csrs(b)
  {
    if b == [] {
      assert a + b == a;
    } else {
      CsrsConcat(a, b[..|b| - 1]);
      assert (a + b)[..|a + b| - 1] == a + b[..|b| - 1];
    }
  }

  lemma {:induction false} NoCsrs(seg: seq<Access>)
    requires forall a :: a in seg ==> !a.WroteCsr?
    ensures Csrs(seg) == []
  {
    if seg != [] {
      NoCsrs(seg[..|seg| - 1]);
    }
  }

  lemma CsrsSnoc(seg: seq<Access>, csr: Csr)
    requires forall a :: a in seg ==> !a.WroteCsr?
    ensures Csrs(seg + [WroteCsr(csr)]) == [csr]
  {
    NoCsrs(seg);
    assert (seg + [WroteCsr(csr)])[..|seg|] == seg;
  }

  class Port {
    var sys: Sys
    /** All accesses so far. */
    ghost var log: seq<Access>

    constructor (init: Sys)
      ensures sys == init && log == []
    {
      sys, log := init, [];
    }

    /** The hardware runs on its own for a while. */
    method Elapse()
      modifies this`sys
      ensures Quiet(old(sys), sys)
    {
      var cycles: int := *;
      ReachesSelf(sys);
      for k := 0 to Max(cycles, 0)
        invariant Quiet(old(sys), sys)
      {
        var initB: bool := *;
        var done: bool := *;
        QuietClock(sys, Pins(initB, done));
        QuietTrans(old(sys), sys, Step(sys, Clock(Pins(initB, done))));
        sys := Step(sys, Clock(Pins(initB, done)));
      }
    }

    method ReadFifoFull() returns (full: bool)
      modifies this
      ensures Reaches(old(sys), sys) && sys.pushed == old(sys.pushed)
      ensures !full ==> sys.sawRoom
      ensures full <==> |sys.q| >= FIFO_SIZE
      ensures log == old(log) + [SawFifo(|sys.q|)]
    {
      Elapse();
      full := |sys.q| >= FIFO_SIZE;
      ReachesStep(sys, ReadFifoCsr);
      ReachesTrans(old(sys), sys, Step(sys, ReadFifoCsr));
      sys := Step(sys, ReadFifoCsr);
      log := log + [SawFifo(|sys.q|)];
    }

    method ReadCsr() returns (done: bool, error: bool)
      modifies this
      ensures Quiet(old(sys), sys)
      ensures done == sys.ld.csrDone && error == sys.ld.csrError
      ensures log == old(log) + [SawCsr(done, error)]
    {
      Elapse();
      done, error := sys.ld.csrDone, sys.ld.csrError;
      log := log + [SawCsr(done, error)];
    }

    /** The bootloader, if it is on the bus, answers with its signature; a passive board leaves the
        bus floating. */
    method ReadIdr() returns (idr: Word, ghost answered: bool)
      modifies this
      ensures Quiet(old(sys), sys)
      ensures idr == if answered then [0x53, 0x56, 0x45, 0x43] else [0xFF, 0xFF, 0xFF, 0xFF]
      ensures log == old(log) + [SawIdr(answered)]
    {
      Elapse();
      var active: bool := *;
      idr := if active then [0x53, 0x56, 0x45, 0x43] else [0xFF, 0xFF, 0xFF, 0xFF];
      answered := active;
      log := log + [SawIdr(answered)];
    }

    method WriteBtrigr(value: Byte)
      modifies this
      ensures Quiet(old(sys), sys)
      ensures log == old(log) + [WroteTrigger(value)]
    {
      Elapse();
      log := log + [WroteTrigger(value)];
    }

    method WriteCsr(csr: Csr) returns (ghost enabled: bool)
      modifies this
      ensures AfterCsr(old(sys), csr, enabled, sys)
      ensures log == old(log) + [WroteCsr(csr)]
    {
      Elapse();
      ghost var before := sys;
      var bootEn: bool := *;
      var initB: bool := *;
      var done: bool := *;
      sys := Step(sys, Action.WriteCsr(csr, bootEn, Pins(initB, done)));
      enabled := bootEn;
      log := log + [WroteCsr(csr)];
      assert Quiet(old(sys), before) && sys == Step(before, Action.WriteCsr(csr, enabled, Pins(initB, done)));
    }

    method WriteR0(value: nat)
      modifies this
      ensures Reaches(old(sys), sys) && sys.pushed == old(sys.pushed) && sys.sawRoom == old(sys.sawRoom)
      ensures sys.r0Size == value % 4 && sys.r0Last == (value / 4 % 2 == 1)
      ensures log == old(log) + [WroteR0(value)]
    {
      Elapse();
      ghost var a := Action.WriteR0(value % 4, value / 4 % 2 == 1);
      ReachesStep(sys, a);
      ReachesTrans(old(sys), sys, Step(sys, a));
      sys := Step(sys, Action.WriteR0(value % 4, value / 4 % 2 == 1));
      log := log + [WroteR0(value)];
    }

    method WriteR1(word: Word)
      requires Room(sys) && sys.sawRoom
      modifies this
      ensures Reaches(old(sys), sys)
      ensures sys.pushed == old(sys.pushed) + [Entry(word, old(sys.r0Size), old(sys.r0Last))]
      ensures log == old(log) + [WroteR1(word)]
    {
      hide Reaches, Step;
      Elapse();
      StepPushes(sys, Action.WriteR1(word));
      ReachesStep(sys, Action.WriteR1(word));
      ReachesTrans(old(sys), sys, Step(sys, Action.WriteR1(word)));
      sys := Step(sys, Action.WriteR1(word));
      log := log + [WroteR1(word)];
    }
  }
}
