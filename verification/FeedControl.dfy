/** The boot machine and the flash controller whatever the flash answers: their handshake, how
    long they take to decide, and what they do while DONE keeps the flash away from them. */
module FeedControl {
  import opened Bytes
  import opened NorFlash
  import opened FlashFeed
  import FlashReader
  import FlashBoot

  predicate Waiting(f: FlashBoot.Fsm) { f.WaitSelectSdb? || f.WaitSelectBitstream? }

  predicate Resting(f: FlashBoot.Fsm) { f.Startup? || f.SelectSdb? || f.SelectBitstream? || f.LoadBsByte? }

  /** Requests, answers and counters, for any contents of the flash. */
  predicate Control(f: Feed) {
    && KnownSectorSize(f.r.chip.sectorSize)
    && FlashReader.Orderly(f.r.ctl, f.fb.setAddr || f.fb.read || Resting(f.fb.fsm))
    && (f.fb.setAddr ==> Waiting(f.fb.fsm))
    && (f.fb.read ==> !Waiting(f.fb.fsm) && !Resting(f.fb.fsm))
    && FlashBoot.Counted(f.fb, |f.handed|)
  }

  /** How the requests of the boot machine follow from its state. */
  predicate Requests(s: FlashBoot.State, i: FlashBoot.In, t: FlashBoot.State) {
    && (t.setAddr ==> Waiting(t.fsm) && Resting(s.fsm))
    && (t.read ==> !Waiting(t.fsm) && !Resting(t.fsm) && (i.ready || s.fsm.LoadBsByte?))
    && (Resting(t.fsm) ==> Resting(s.fsm) || i.ready)
  }

  lemma RequestsStep(s: FlashBoot.State, i: FlashBoot.In)
    requires i.rstN && i.enable && (s.setAddr ==> Waiting(s.fsm)) && (i.ready ==> !s.setAddr && !s.read)
    requires s.read ==> !Waiting(s.fsm) && !Resting(s.fsm)
    ensures Requests(s, i, FlashBoot.Next(s, i))
  {
    if FlashBoot.Checking(s.fsm) {
      FlashBoot.CheckMoves(s, i);
      hide FlashBoot.Next;
    } else if FlashBoot.Selecting(s.fsm) {
      SelectRequests(s, i);
    } else {
      LoadRequests(s, i);
    }
  }

  lemma SelectRequests(s: FlashBoot.State, i: FlashBoot.In)
    requires i.rstN && i.enable && FlashBoot.Selecting(s.fsm) && (s.setAddr ==> Waiting(s.fsm)) && !s.read
    requires i.ready ==> !s.setAddr
    ensures Requests(s, i, FlashBoot.Next(s, i))
  {
    match s.fsm
    case Startup =>
    case SelectSdb =>
    case WaitSelectSdb =>
    case SelectBitstream =>
    case WaitSelectBitstream =>
  }

  lemma LoadRequests(s: FlashBoot.State, i: FlashBoot.In)
    requires i.rstN && i.enable && (FlashBoot.Loading(s.fsm) || FlashBoot.Over(s.fsm)) && !s.setAddr
    requires i.ready ==> !s.read
    requires s.fsm.LoadBsByte? ==> !s.read
    ensures Requests(s, i, FlashBoot.Next(s, i))
  {
    match s.fsm
    case FetchBsByte =>
    case LoadBsByte =>
    case NoBitstream =>
    case BootDone =>
  }

  lemma ControlStep(f: Feed, e: Env)
    requires Control(f)
    ensures Control(Step(f, e))
  {
    var i := BootIn(f, e);
    GeometryKept(f, e);
    FlashReader.OrderlyStep(f.r, f.fb.setAddr, f.fb.addr, f.fb.read, e.link);
    RequestsStep(f.fb, i);
    FlashBoot.CountedStep(f.fb, i, |f.handed|);
    hide FlashBoot.Next, FlashReader.Wired, FlashBoot.Counted;
  }

  lemma {:induction false} RunControl(f: Feed, es: seq<Env>)
    requires Control(f)
    ensures Control(Run(f, es))
  {
    if es != [] {
      RunControl(f, es[..|es| - 1]);
      ControlStep(Run(f, es[..|es| - 1]), es[|es| - 1]);
    }
  }

  lemma ControlAtReset(f: Feed)
    requires AfterReset(f)
    ensures Control(f)
  {
  }

  // ---- what has been fetched stays fetched ----

  /** The bytes handed over, and the one on offer. */
  function Fetched(f: Feed): seq<Byte> {
    if f.fb.fsm.LoadBsByte? then f.handed + [f.fb.data] else f.handed
  }

  lemma FetchedGrows(f: Feed, e: Env)
    ensures KnownSectorSize(f.r.chip.sectorSize) ==> Fetched(f) <= Fetched(Step(f, e))
  {
    if f.fb.fsm.LoadBsByte? {
      FlashBoot.LoadMoves(f.fb, BootIn(f, e));
    }
    hide FlashBoot.Next, FlashReader.Wired;
  }

  lemma {:induction false} FetchedStays(f: Feed, es: seq<Env>, n: nat)
    requires n <= |es| && KnownSectorSize(f.r.chip.sectorSize)
    ensures Fetched(Run(f, es[..n])) <= Fetched(Run(f, es))
  {
    if n < |es| {
      var before := es[..|es| - 1];
      FetchedStays(f, before, n);
      assert before[..n] == es[..n];
      FetchedGrows(Run(f, before), es[|es| - 1]);
    } else {
      assert es[..n] == es;
    }
  }

  /** What was fetched before DONE first rose is the flash's, whatever happens later: for every
      run, and every point `n` up to which DONE was low. */
  lemma FetchedFaithful(f: Feed, es: seq<Env>, n: nat)
    requires AfterReset(f) && n <= |es| && DoneLow(es[..n])
    ensures var early, late := Fetched(Run(f, es[..n])), Run(f, es).handed;
      && FlashBoot.SDB_BITSTREAM_OFFSET + |early| <= FLASH_SIZE
      && early == f.r.chip.mem[FlashBoot.SDB_BITSTREAM_OFFSET..FlashBoot.SDB_BITSTREAM_OFFSET + |early|]
      && (forall k :: 0 <= k < |late| && k < |early| ==> late[k] == early[k])
  {
    FeedFaithful(f, es[..n]);
    FetchedStays(f, es, n);
    InvFetched(Run(f, es[..n]), f.r.chip.mem);
  }

  lemma InvFetched(f: Feed, mem: Image)
    requires Inv(f, mem)
    ensures var o, n := FlashBoot.SDB_BITSTREAM_OFFSET, |Fetched(f)|;
      o + n <= FLASH_SIZE && Fetched(f) == mem[o..o + n]
  {
    hide FlashReader.Resting, FlashReader.Selected, SignatureAt;
    var o, n := FlashBoot.SDB_BITSTREAM_OFFSET, |f.handed|;
    assert mem[o..o + n] + [mem[o + n]] == mem[o..o + n + 1];
  }

  // ---- how long a decision takes ----

  /** States still to go until the first byte is on offer. */
  function StatesLeft(f: FlashBoot.Fsm): nat {
    match f
    case Startup => 12 case SelectSdb => 11 case WaitSelectSdb => 10
    case CheckSig0 => 9 case CheckSig1 => 8 case CheckSig2 => 7 case CheckSig3 => 6
    case SelectBitstream => 5 case WaitSelectBitstream => 4 case FetchBsByte => 3
    case LoadBsByte => 0 case NoBitstream => 0 case BootDone => 0
  }

  function StepsLeft(f: Feed): nat {
    29 * StatesLeft(f.fb.fsm) + if f.fb.setAddr then 28 else if f.fb.read then 8 else FlashReader.StepsLeft(f.r)
  }

  /** The cycle does nothing but carry on with an SPI transfer. */
  predicate Stalled(f: Feed, e: Env) { f.r.spi.busy && !e.link.finish }

  /** An answer, or a state that needs none, brings the boot machine on; else it waits. */
  predicate Advances(s: FlashBoot.State, i: FlashBoot.In, t: FlashBoot.State) {
    && (i.ready || Resting(s.fsm) ==> StatesLeft(t.fsm) < StatesLeft(s.fsm))
    && (!i.ready && !Resting(s.fsm) ==> t.fsm == s.fsm && !t.setAddr && !t.read)
    && (StatesLeft(s.fsm) >= 6 && StatesLeft(t.fsm) < 6 ==> t.fsm.SelectBitstream? || t.fsm.NoBitstream?)
    && (StatesLeft(s.fsm) >= 3 && StatesLeft(t.fsm) < 3 ==> t.fsm.LoadBsByte? || t.fsm.NoBitstream?)
  }

  lemma StatesDrop(s: FlashBoot.State, i: FlashBoot.In)
    requires i.rstN && i.enable && StatesLeft(s.fsm) > 0
    requires (s.setAddr ==> Waiting(s.fsm)) && (s.read ==> !Waiting(s.fsm) && !Resting(s.fsm))
    ensures Advances(s, i, FlashBoot.Next(s, i))
  {
    if FlashBoot.Checking(s.fsm) {
      FlashBoot.CheckMoves(s, i);
      hide FlashBoot.Next;
    } else {
      match s.fsm
      case Startup =>
      case SelectSdb =>
      case WaitSelectSdb =>
      case SelectBitstream =>
      case WaitSelectBitstream =>
      case FetchBsByte =>
    }
  }

  /** Every cycle brings the decision nearer, unless a transfer is running on. */
  lemma StepsDrop(f: Feed, e: Env)
    requires Control(f) && StatesLeft(f.fb.fsm) > 0
    ensures var t := Step(f, e);
      if Stalled(f, e) then StepsLeft(t) <= StepsLeft(f) else StepsLeft(t) < StepsLeft(f)
  {
    var i := BootIn(f, e);
    FlashReader.OrderlyStep(f.r, f.fb.setAddr, f.fb.addr, f.fb.read, e.link);
    FlashReader.StepsDrop(f.r, f.fb.setAddr, f.fb.addr, f.fb.read, e.link);
    RequestsStep(f.fb, i);
    StatesDrop(f.fb, i);
    hide FlashBoot.Next, FlashReader.Wired, FlashBoot.Counted, StatesLeft;
  }

  /** In one of the `limit` cycles from `j` on, no transfer runs on. */
  predicate Served(f: Feed, es: seq<Env>, j: nat, limit: nat)
    requires KnownSectorSize(f.r.chip.sectorSize) && j + limit <= |es|
  {
    exists k: nat :: j <= k < j + limit && !Stalled(Run(f, es[..k]), es[k])
  }

  /** No SPI transfer runs on for `limit` cycles. */
  predicate Prompt(f: Feed, es: seq<Env>, limit: nat)
    requires KnownSectorSize(f.r.chip.sectorSize)
  {
    forall j: nat {:trigger Served(f, es, j, limit)} :: j + limit <= |es| ==> Served(f, es, j, limit)
  }

  /** In the first `n` cycles the boot machine had at least `states` states to go. */
  predicate Undecided(f: Feed, es: seq<Env>, n: nat, states: nat)
    requires n <= |es| && KnownSectorSize(f.r.chip.sectorSize)
  {
    forall m: nat :: m <= n ==> StatesLeft(Run(f, es[..m]).fb.fsm) >= states
  }

  lemma {:induction false} StepsMonotone(f: Feed, es: seq<Env>, m: nat, n: nat)
    requires KnownSectorSize(f.r.chip.sectorSize) && Control(f) && m <= n <= |es| && Undecided(f, es, n, 1)
    ensures StepsLeft(Run(f, es[..n])) <= StepsLeft(Run(f, es[..m]))
    decreases n
  {
    hide *;
    if m < n {
      UndecidedBefore(f, es, n - 1, n);
      StepsMonotone(f, es, m, n - 1);
      OneStep(f, es, n - 1);
    }
  }

  lemma OneStep(f: Feed, es: seq<Env>, n: nat)
    requires Control(f) && n < |es| && StatesLeft(Run(f, es[..n]).fb.fsm) >= 1
    ensures Run(f, es[..n + 1]) == Step(Run(f, es[..n]), es[n])
    ensures var t, u := Run(f, es[..n]), Run(f, es[..n + 1]);
      if Stalled(t, es[n]) then StepsLeft(u) <= StepsLeft(t) else StepsLeft(u) < StepsLeft(t)
  {
    hide StepsLeft, StatesLeft;
    assert es[..n + 1][..n] == es[..n];
    RunControl(f, es[..n]);
    StepsDrop(Run(f, es[..n]), es[n]);
  }

  /** `j` stretches of `limit` cycles. */
  function Cycles(j: nat, limit: nat): nat {
    if j == 0 then 0 else Cycles(j - 1, limit) + limit
  }

  lemma NextCycles(j: nat, limit: nat)
    ensures Cycles(j, limit) == if j == 0 then 0 else Cycles(j - 1, limit) + limit
  {
  }

  lemma {:induction false} CyclesProduct(j: nat, limit: nat)
    ensures Cycles(j, limit) == j * limit
  {
    if j > 0 {
      CyclesProduct(j - 1, limit);
    }
  }

  /** Each stretch of `limit` cycles takes at least one step. */
  lemma {:induction false} StepsPassed(f: Feed, es: seq<Env>, limit: nat, j: nat, n: nat)
    requires n == Cycles(j, limit) <= |es|
    requires KnownSectorSize(f.r.chip.sectorSize) && Control(f)
    requires Prompt(f, es, limit) && Undecided(f, es, n, 1)
    ensures StepsLeft(Run(f, es[..n])) + j <= StepsLeft(f)
    decreases j
  {
    hide *;
    NextCycles(j, limit);
    if j == 0 {
      RunNothing(f, es);
    } else {
      var a := Cycles(j - 1, limit);
      UndecidedBefore(f, es, a, n);
      StepsPassed(f, es, limit, j - 1, a);
      ServedAt(f, es, a, limit);
      OneStretch(f, es, a, limit);
    }
  }

  lemma UndecidedBefore(f: Feed, es: seq<Env>, m: nat, n: nat)
    requires KnownSectorSize(f.r.chip.sectorSize) && m <= n <= |es| && Undecided(f, es, n, 1)
    ensures Undecided(f, es, m, 1) && StatesLeft(Run(f, es[..n]).fb.fsm) >= 1
    ensures StatesLeft(Run(f, es[..m]).fb.fsm) >= 1
  {
    hide Run, StatesLeft;
  }

  lemma ServedAt(f: Feed, es: seq<Env>, j: nat, limit: nat)
    requires KnownSectorSize(f.r.chip.sectorSize) && Prompt(f, es, limit) && j + limit <= |es|
    ensures Served(f, es, j, limit)
  {
  }

  lemma {:induction false} RunAfter(f: Feed, es: seq<Env>, n: nat, m: nat)
    requires KnownSectorSize(f.r.chip.sectorSize) && n <= m <= |es|
    ensures Run(Run(f, es[..n]), es[n..][..m - n]) == Run(f, es[..m])
  {
    hide FlashFeed.Step;
    if m == n {
      assert es[n..][..0] == [];
    } else {
      RunAfter(f, es, n, m - 1);
      assert es[n..][..m - n][..m - n - 1] == es[n..][..m - 1 - n] && es[..m][..m - 1] == es[..m - 1];
    }
  }

  /** What is prompt stays prompt. */
  lemma PromptAfter(f: Feed, es: seq<Env>, limit: nat, n: nat)
    requires KnownSectorSize(f.r.chip.sectorSize) && n <= |es| && Prompt(f, es, limit)
    ensures Prompt(Run(f, es[..n]), es[n..], limit)
  {
    hide Run;
    forall j: nat | j + limit <= |es[n..]|
      ensures Served(Run(f, es[..n]), es[n..], j, limit)
    {
      assert Served(f, es, n + j, limit);
      var k: nat :| n + j <= k < n + j + limit && !Stalled(Run(f, es[..k]), es[k]);
      RunAfter(f, es, n, k);
      assert !Stalled(Run(Run(f, es[..n]), es[n..][..k - n]), es[n..][k - n]);
    }
  }

  lemma RunNothing(f: Feed, es: seq<Env>)
    requires KnownSectorSize(f.r.chip.sectorSize)
    ensures Run(f, es[..0]) == f
  {
    assert es[..0] == [];
  }

  lemma OneStretch(f: Feed, es: seq<Env>, a: nat, limit: nat)
    requires Control(f) && a + limit <= |es| && Undecided(f, es, a + limit, 1) && Served(f, es, a, limit)
    ensures StepsLeft(Run(f, es[..a + limit])) < StepsLeft(Run(f, es[..a]))
  {
    hide StepsLeft, StatesLeft, Run;
    var k: nat :| a <= k < a + limit && !Stalled(Run(f, es[..k]), es[k]);
    StepsMonotone(f, es, a, k);
    OneStep(f, es, k);
    StepsMonotone(f, es, k + 1, a + limit);
  }

  /** From reset at most 349 steps are left. */
  lemma StepsAtReset(f: Feed)
    requires AfterReset(f)
    ensures Control(f) && StepsLeft(f) <= 349 && StatesLeft(f.fb.fsm) == 12
  {
  }

  lemma StepsOfStates(f: Feed, states: nat)
    ensures StatesLeft(f.fb.fsm) >= states ==> StepsLeft(f) >= 29 * states
  {
  }

  /** So fewer than `states` states are left after (350 - 29 * states) * limit cycles at the latest. */
  lemma DecidedBy(f: Feed, es: seq<Env>, limit: nat, states: nat, j: nat)
    requires AfterReset(f) && Prompt(f, es, limit) && 1 <= states <= 12
    requires j == 350 - 29 * states && Cycles(j, limit) <= |es|
    ensures exists n: nat :: n <= Cycles(j, limit) && StatesLeft(Run(f, es[..n]).fb.fsm) < states
  {
    StepsAtReset(f);
    var n := Cycles(j, limit);
    hide StepsLeft, StatesLeft, Control, Run, AfterReset, Cycles;
    StepsOfStates(Run(f, es[..n]), states);
    if Undecided(f, es, n, states) {
      StepsPassed(f, es, limit, j, n);
    }
  }

  /** The first cycle with fewer than `states` states left. */
  lemma {:induction false} FirstBelow(f: Feed, es: seq<Env>, states: nat, n: nat) returns (m: nat)
    requires KnownSectorSize(f.r.chip.sectorSize) && AfterReset(f)
    requires n <= |es| && 1 <= states <= 12 && StatesLeft(Run(f, es[..n]).fb.fsm) < states
    ensures 0 < m <= n && StatesLeft(Run(f, es[..m]).fb.fsm) < states && Undecided(f, es, m - 1, states)
    ensures Run(f, es[..m - 1]).handed == []
    decreases n
  {
    hide Run, StatesLeft, AfterReset;
    AllToGo(f, es);
    if Undecided(f, es, n - 1, states) {
      m := n;
      NothingYet(f, es, n - 1);
    } else {
      var k: nat :| k <= n - 1 && StatesLeft(Run(f, es[..k]).fb.fsm) < states;
      m := FirstBelow(f, es, states, k);
    }
  }

  lemma AllToGo(f: Feed, es: seq<Env>)
    requires AfterReset(f)
    ensures StatesLeft(Run(f, es[..0]).fb.fsm) == 12
  {
    assert es[..0] == [];
  }

  lemma {:induction false} NothingYet(f: Feed, es: seq<Env>, n: nat)
    requires AfterReset(f) && n <= |es| && Undecided(f, es, n, 1)
    ensures Run(f, es[..n]).handed == []
  {
    if n == 0 {
      assert es[..0] == [];
    } else {
      NothingYet(f, es, n - 1);
      assert es[..n][..n - 1] == es[..n - 1];
      NothingHanded(Run(f, es[..n - 1]), es[n - 1]);
    }
  }

  lemma NothingHanded(f: Feed, e: Env)
    requires KnownSectorSize(f.r.chip.sectorSize) && StatesLeft(f.fb.fsm) >= 1
    ensures Step(f, e).handed == f.handed
  {
  }

  const DECISION_STEPS: nat := 176
  const FIRST_BYTE_STEPS: nat := 263

  /** The last cycle before a decision, and the decision: whatever DONE does, it is made in time. */
  lemma Decision(f: Feed, es: seq<Env>, limit: nat) returns (m: nat)
    requires AfterReset(f) && Prompt(f, es, limit) && DECISION_STEPS * limit <= |es|
    ensures m <= DECISION_STEPS * limit
    ensures var t := Run(f, es[..m]); (t.fb.fsm.SelectBitstream? || t.fb.fsm.NoBitstream?) && t.handed == []
  {
    CyclesProduct(DECISION_STEPS, limit);
    hide Cycles, StatesLeft;
    DecidedBy(f, es, limit, 6, DECISION_STEPS);
    var n: nat :| n <= DECISION_STEPS * limit && StatesLeft(Run(f, es[..n]).fb.fsm) < 6;
    m := FirstBelow(f, es, 6, n);
    DecisionStep(f, es, m);
  }

  lemma DecisionStep(f: Feed, es: seq<Env>, m: nat)
    requires AfterReset(f) && 0 < m <= |es| && Run(f, es[..m - 1]).handed == []
    requires StatesLeft(Run(f, es[..m]).fb.fsm) < 6 && Undecided(f, es, m - 1, 6)
    ensures var t := Run(f, es[..m]); (t.fb.fsm.SelectBitstream? || t.fb.fsm.NoBitstream?) && t.handed == []
  {
    StepsAtReset(f);
    hide Run, FlashReader.Wired, FlashBoot.Next, StatesLeft, StepsLeft, AfterReset, FlashBoot.Counted;
    RunControl(f, es[..m - 1]);
    var before := Run(f, es[..m - 1]);
    assert StatesLeft(before.fb.fsm) >= 6;
    OneStep(f, es, m - 1);
    StatesDrop(before.fb, BootIn(before, es[m - 1]));
    NothingHanded(before, es[m - 1]);
  }

  /** Before any byte is handed over, the outcome is the stored signature's. */
  lemma DecidedRight(f: Feed, mem: Image)
    requires Inv(f, mem) && f.handed == []
    ensures f.fb.fsm.NoBitstream? ==> !SignatureAt(mem, 4)
    ensures f.fb.fsm.SelectBitstream? ==> SignatureAt(mem, 4)
  {
    hide FlashFeed.Synchronised, FlashFeed.Streaming, Faithful;
  }

  /** The decision is the signature's alone: if no SPI transfer runs on for `limit` cycles and
      DONE is low for that long, then within 176 * limit cycles of reset the boot machine goes on
      to the bitstream or gives up, and it goes on exactly when the right signature is stored. */
  lemma SignatureDecides(f: Feed, es: seq<Env>, limit: nat, n: nat) returns (m: nat)
    requires AfterReset(f) && Prompt(f, es, limit) && DECISION_STEPS * limit <= n <= |es| && DoneLow(es[..n])
    ensures m <= DECISION_STEPS * limit && Passed(Run(f, es[..m]), SignatureAt(f.r.chip.mem, 4))
  {
    m := Decision(f, es, limit);
    hide Run, Prompt, AfterReset, SignatureAt, Inv, Faithful;
    assert forall j :: 0 <= j < m ==> es[..m][j] == es[..n][j];
    FeedFaithful(f, es[..m]);
    DecidedRight(Run(f, es[..m]), f.r.chip.mem);
  }

  /** The boot machine has just gone on to the bitstream, or given up. */
  predicate Passed(f: Feed, ok: bool) { f.fb.fsm == if ok then FlashBoot.SelectBitstream else FlashBoot.NoBitstream }

  /** Likewise for the first byte: it is on offer in time, or the boot has been given up. */
  lemma FirstByte(f: Feed, es: seq<Env>, limit: nat) returns (m: nat)
    requires AfterReset(f) && Prompt(f, es, limit) && FIRST_BYTE_STEPS * limit <= |es|
    ensures m <= FIRST_BYTE_STEPS * limit
    ensures var t := Run(f, es[..m]); (t.fb.fsm.LoadBsByte? || t.fb.fsm.NoBitstream?) && t.handed == []
  {
    CyclesProduct(FIRST_BYTE_STEPS, limit);
    hide Cycles, StatesLeft;
    DecidedBy(f, es, limit, 3, FIRST_BYTE_STEPS);
    var n: nat :| n <= FIRST_BYTE_STEPS * limit && StatesLeft(Run(f, es[..n]).fb.fsm) < 3;
    m := FirstBelow(f, es, 3, n);
    FirstByteStep(f, es, m);
  }

  /** With the right signature stored and DONE low, the first byte is on offer after
      263 * limit cycles at the latest. */
  lemma FirstByteOffered(f: Feed, es: seq<Env>, limit: nat) returns (m: nat)
    requires AfterReset(f) && Prompt(f, es, limit) && FIRST_BYTE_STEPS * limit <= |es| && DoneLow(es)
    requires SignatureAt(f.r.chip.mem, 4)
    ensures m <= FIRST_BYTE_STEPS * limit && Run(f, es[..m]).fb.fsm.LoadBsByte? && Run(f, es[..m]).handed == []
  {
    m := FirstByte(f, es, limit);
    hide Run, Prompt, AfterReset, SignatureAt, Inv, Faithful;
    FeedFaithful(f, es[..m]);
    DecidedRight(Run(f, es[..m]), f.r.chip.mem);
  }

  lemma FirstByteStep(f: Feed, es: seq<Env>, m: nat)
    requires AfterReset(f) && 0 < m <= |es| && Run(f, es[..m - 1]).handed == []
    requires StatesLeft(Run(f, es[..m]).fb.fsm) < 3 && Undecided(f, es, m - 1, 3)
    ensures var t := Run(f, es[..m]); (t.fb.fsm.LoadBsByte? || t.fb.fsm.NoBitstream?) && t.handed == []
  {
    StepsAtReset(f);
    hide Run, FlashReader.Wired, FlashBoot.Next, StatesLeft, StepsLeft, AfterReset, FlashBoot.Counted;
    RunControl(f, es[..m - 1]);
    var before := Run(f, es[..m - 1]);
    assert StatesLeft(before.fb.fsm) >= 3;
    OneStep(f, es, m - 1);
    StatesDrop(before.fb, BootIn(before, es[m - 1]));
    NothingHanded(before, es[m - 1]);
  }

  // ---- a reset while the Application FPGA is configured ----

  /** DONE is high and MISO does not move. */
  predicate Configured(es: seq<Env>, line: Byte) {
    forall j :: 0 <= j < |es| ==> FlashReader.Detached(es[j].link, line)
  }

  /** The answer to a read request will be the level of MISO. */
  predicate Answering(f: Feed, line: Byte) {
    f.fb.read ||
    match f.r.ctl.fsm
    case Data => !f.r.ctl.spiStart && !f.r.spi.busy ==> f.r.spi.rdata == line
    case Idle => f.r.ctl.readyInt && f.r.ctl.data == line
    case _ => false
  }

  /** The boot machine never sees the flash, and gets past one comparison at most. */
  predicate Blind(f: Feed, line: Byte) {
    && Control(f) && f.handed == []
    && match f.fb.fsm
       case Startup | SelectSdb | WaitSelectSdb | NoBitstream => true
       case CheckSig0 => Answering(f, line)
       case CheckSig1 => line == FlashBoot.SDB_SIGNATURE[0] && Answering(f, line)
       case _ => false
  }

  lemma BlindStep(f: Feed, e: Env, line: Byte)
    requires Blind(f, line) && e.link.donePin && e.link.miso == line
    ensures Blind(Step(f, e), line)
  {
    ControlStep(f, e);
    hide Control;
    if f.fb.fsm.CheckSig0? || f.fb.fsm.CheckSig1? {
      BlindCheck(f, e, line);
    }
  }

  lemma AnswerStep(f: Feed, e: Env, line: Byte)
    requires Blind(f, line) && e.link.donePin && e.link.miso == line && FlashBoot.Checking(f.fb.fsm)
    ensures FlashReader.Ready(f.r.ctl, f.fb.setAddr, f.fb.read) ==> f.r.ctl.data == line
    ensures !FlashReader.Ready(f.r.ctl, f.fb.setAddr, f.fb.read) ==> Answering(Step(f, e), line)
  {
  }

  lemma BlindCheck(f: Feed, e: Env, line: Byte)
    requires Blind(f, line) && e.link.donePin && e.link.miso == line && FlashBoot.Checking(f.fb.fsm)
    requires Control(Step(f, e))
    ensures Blind(Step(f, e), line)
  {
    AnswerStep(f, e, line);
    FlashBoot.CheckMoves(f.fb, BootIn(f, e));
    hide FlashBoot.Next, FlashReader.Wired, Control;
  }

  lemma {:induction false} RunBlind(f: Feed, es: seq<Env>, line: Byte)
    requires AfterReset(f) && Configured(es, line)
    ensures Blind(Run(f, es), line)
  {
    if es == [] {
      ControlAtReset(f);
    } else {
      RunBlind(f, es[..|es| - 1], line);
      BlindStep(Run(f, es[..|es| - 1]), es[|es| - 1], line);
    }
  }

  /** A reset of the System FPGA while the Application FPGA is configured and does not use the
      flash: the boot gives up in time, whatever the flash holds, and hands out nothing. */
  lemma GivesUpBlind(f: Feed, es: seq<Env>, limit: nat, line: Byte) returns (m: nat)
    requires AfterReset(f) && Prompt(f, es, limit) && DECISION_STEPS * limit <= |es| && Configured(es, line)
    ensures m <= DECISION_STEPS * limit && Passed(Run(f, es[..m]), false)
    ensures Run(f, es).handed == []
  {
    RunBlind(f, es, line);
    m := Decision(f, es, limit);
    RunBlind(f, es[..m], line);
    hide Run, Prompt, AfterReset, Control;
  }

  /** Exactly when a boot gets past the signature, while DONE keeps one level: it does if and
      only if DONE is low and the right signature is stored. */
  lemma SignatureExactly(f: Feed, es: seq<Env>, limit: nat, line: Byte) returns (m: nat)
    requires AfterReset(f) && Prompt(f, es, limit) && DECISION_STEPS * limit <= |es|
    requires DoneLow(es) || Configured(es, line)
    ensures m <= DECISION_STEPS * limit
    ensures Passed(Run(f, es[..m]), DoneLow(es) && SignatureAt(f.r.chip.mem, 4))
  {
    hide Run, Prompt, AfterReset, DoneLow, Configured, SignatureAt, Passed;
    assert es[..|es|] == es;
    if DoneLow(es) {
      m := SignatureDecides(f, es, limit, |es|);
    } else {
      m := GivesUpBlind(f, es, limit, line);
    }
  }
}
