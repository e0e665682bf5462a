/** The boot machine of the System FPGA: checks the descriptor's signature, then feeds the
    bitstream from the flash to the loader byte by byte. */
module FlashBoot {
  import opened Bytes
  import opened NorFlash

  datatype Fsm =
    | Startup | SelectSdb | WaitSelectSdb | CheckSig0 | CheckSig1 | CheckSig2 | CheckSig3
    | SelectBitstream | WaitSelectBitstream | FetchBsByte | LoadBsByte | NoBitstream | BootDone

  const SDB_SIGNATURE: seq<Byte> := [0x53, 0x44, 0x42, 0x2D]
  const SDB_ROOT_OFFSET: Address := 0x600000
  const SDB_BITSTREAM_OFFSET: Address := 0x100000
  const BITSTREAM_SIZE := 0x408000

  type U24 = x: int | 0 <= x < 0x1000000

  datatype State = State(
    fsm: Fsm, setAddr: bool, addr: Address, read: bool, start: bool,
    data: Byte, empty: bool, byteCount: U24,
    noBitstream: bool, noBitstreamD0: bool, noBitstreamP1: bool)

  /** `ready` and `flashData` come from the flash controller, `rd` and `done` from the loader. */
  datatype In = In(rstN: bool, enable: bool, ready: bool, flashData: Byte, rd: bool, done: bool)

  predicate Checking(f: Fsm) { f.CheckSig0? || f.CheckSig1? || f.CheckSig2? || f.CheckSig3? }

  predicate Loading(f: Fsm) { f.FetchBsByte? || f.LoadBsByte? }

  predicate Over(f: Fsm) { f.NoBitstream? || f.BootDone? }

  predicate Selecting(f: Fsm) { !Checking(f) && !Loading(f) && !Over(f) }

  /** How many signature bytes have been compared on the way to `f`. */
  function SigIndex(f: Fsm): (n: nat)
    ensures n <= 4 && (Checking(f) ==> n < 4)
  {
    if f.Startup? || f.SelectSdb? || f.WaitSelectSdb? || f.CheckSig0? then 0
    else if f.CheckSig1? then 1 else if f.CheckSig2? then 2 else if f.CheckSig3? then 3 else 4
  }

  function AfterCheck(f: Fsm): Fsm
    requires Checking(f)
  {
    if f.CheckSig0? then CheckSig1
    else if f.CheckSig1? then CheckSig2 else if f.CheckSig2? then CheckSig3 else SelectBitstream
  }

  /** `f_check_signature`: compares one byte of the signature. */
  function CheckSignature(s: State, i: In, id: nat, next: Fsm, readNext: bool): State
    requires id < 4
  {
    if i.ready then s.(fsm := if i.flashData == SDB_SIGNATURE[id] then next else NoBitstream, read := readNext)
    else s.(read := false)
  }

  function BootFsm(s: State, i: In): State {
    if !i.rstN || !i.enable then
      s.(fsm := Startup, setAddr := false, read := false, start := false, empty := true, noBitstream := false)
    else if Checking(s.fsm) then
      CheckSignature(s, i, SigIndex(s.fsm), AfterCheck(s.fsm), !s.fsm.CheckSig3?)
    else
      match s.fsm
      case Startup => s.(fsm := SelectSdb, byteCount := 0)
      case SelectSdb => s.(setAddr := true, addr := SDB_ROOT_OFFSET, fsm := WaitSelectSdb)
      case WaitSelectSdb => if i.ready then s.(read := true, fsm := CheckSig0) else s.(setAddr := false)
      case SelectBitstream =>
        s.(start := true, setAddr := true, addr := SDB_BITSTREAM_OFFSET, fsm := WaitSelectBitstream)
      case WaitSelectBitstream =>
        s.(start := false, setAddr := false, read := i.ready,
           fsm := if i.ready then FetchBsByte else WaitSelectBitstream)
      case FetchBsByte =>
        if i.ready then s.(empty := false, data := i.flashData, fsm := LoadBsByte) else s.(read := false)
      case LoadBsByte =>
        if i.rd then
          s.(read := true, empty := true, byteCount := (s.byteCount + 1) % 0x1000000,
             fsm := if i.done then BootDone else if s.byteCount == BITSTREAM_SIZE then NoBitstream else FetchBsByte)
        else s.(read := false)
      case NoBitstream => s.(read := false, noBitstream := true)
      case BootDone => s.(read := false)
  }

  function Next(s: State, i: In): State {
    BootFsm(s, i).(noBitstreamD0 := i.rstN && s.noBitstream,
                   noBitstreamP1 := i.rstN && s.noBitstream && !s.noBitstreamD0)
  }

  class Engine {
    var regs: State

    constructor (init: State)
      ensures regs == init
    {
      regs := init;
    }

    method Step(i: In)
      modifies this
      ensures regs == Next(old(regs), i)
    {
      var next := regs;
      if !i.rstN || !i.enable {
        next := next.(fsm := Startup, setAddr := false, read := false, start := false);
        next := next.(empty := true, noBitstream := false);
      } else if Checking(regs.fsm) {
        next := Check(i);
      } else if Loading(regs.fsm) || Over(regs.fsm) {
        next := Load(i);
      } else {
        next := Select(i);
      }
      if !i.rstN {
        next := next.(noBitstreamP1 := false, noBitstreamD0 := false);
      } else {
        next := next.(noBitstreamD0 := regs.noBitstream, noBitstreamP1 := regs.noBitstream && !regs.noBitstreamD0);
      }
      regs := next;
    }

    method Select(i: In) returns (next: State)
      requires i.rstN && i.enable && Selecting(regs.fsm)
      ensures next == BootFsm(regs, i)
    {
      next := regs;
      match regs.fsm {
        case Startup =>
          next := next.(fsm := SelectSdb, byteCount := 0);
        case SelectSdb =>
          next := next.(setAddr := true, addr := SDB_ROOT_OFFSET, fsm := WaitSelectSdb);
        case WaitSelectSdb =>
          if i.ready {
            next := next.(read := true, fsm := CheckSig0);
          } else {
            next := next.(setAddr := false);
          }
        case SelectBitstream =>
          next := next.(start := true, setAddr := true, addr := SDB_BITSTREAM_OFFSET, fsm := WaitSelectBitstream);
        case WaitSelectBitstream =>
          next := next.(start := false, setAddr := false);
          if i.ready {
            next := next.(fsm := FetchBsByte, read := true);
          } else {
            next := next.(read := false);
          }
      }
    }

    method Check(i: In) returns (next: State)
      requires i.rstN && i.enable && Checking(regs.fsm)
      ensures next == BootFsm(regs, i)
    {
      match regs.fsm {
        case CheckSig0 => next := Compare(i, 0, CheckSig1, true);
        case CheckSig1 => next := Compare(i, 1, CheckSig2, true);
        case CheckSig2 => next := Compare(i, 2, CheckSig3, true);
        case CheckSig3 => next := Compare(i, 3, SelectBitstream, false);
      }
    }

    method Compare(i: In, id: nat, after: Fsm, readNext: bool) returns (next: State)
      requires id < 4
      ensures next == CheckSignature(regs, i, id, after, readNext)
    {
      next := regs;
      if i.ready {
        if i.flashData == SDB_SIGNATURE[id] {
          next := next.(fsm := after);
        } else {
          next := next.(fsm := NoBitstream);
        }
        next := next.(read := readNext);
      } else {
        next := next.(read := false);
      }
    }

    method Load(i: In) returns (next: State)
      requires i.rstN && i.enable && (Loading(regs.fsm) || Over(regs.fsm))
      ensures next == BootFsm(regs, i)
    {
      next := regs;
      match regs.fsm {
        case FetchBsByte =>
          if i.ready {
            next := next.(empty := false, data := i.flashData, fsm := LoadBsByte);
          } else {
            next := next.(read := false);
          }
        case LoadBsByte =>
          if i.rd {
            next := next.(read := true, empty := true);
            if i.done {
              next := next.(fsm := BootDone);
            } else if regs.byteCount == BITSTREAM_SIZE {
              next := next.(fsm := NoBitstream);
            } else {
              next := next.(fsm := FetchBsByte);
            }
            next := next.(byteCount := (regs.byteCount + 1) % 0x1000000);
          } else {
            next := next.(read := false);
          }
        case NoBitstream =>
          next := next.(read := false, noBitstream := true);
        case BootDone =>
          next := next.(read := false);
      }
    }
  }

  // ---- runs of the boot machine alone, whatever the flash and the loader answer ----

  function Run(s: State, ins: seq<In>): State {
    if ins == [] then s else Next(Run(s, ins[..|ins| - 1]), ins[|ins| - 1])
  }

  predicate Enabled(ins: seq<In>) {
    forall j :: 0 <= j < |ins| ==> ins[j].rstN && ins[j].enable
  }

  /** Bytes the loader has taken. */
  function Taken(s: State, ins: seq<In>): nat {
    if ins == [] then 0
    else
      var before := ins[..|ins| - 1];
      Taken(s, before) + if Run(s, before).fsm.LoadBsByte? && ins[|ins| - 1].rd then 1 else 0
  }

  /** The step from `t` found a matching signature byte. */
  predicate Matches(t: State, i: In) {
    Checking(t.fsm) && i.ready && i.flashData == SDB_SIGNATURE[SigIndex(t.fsm)]
  }

  /** The signature bytes that compared equal. */
  function Matched(s: State, ins: seq<In>): seq<Byte> {
    if ins == [] then []
    else
      var before, i := ins[..|ins| - 1], ins[|ins| - 1];
      Matched(s, before) + if Matches(Run(s, before), i) then [i.flashData] else []
  }

  /** The byte counter counts, and nothing is handed out before the loading states. */
  predicate Counted(t: State, taken: nat) {
    && taken <= BITSTREAM_SIZE + 1
    && (!Over(t.fsm) && !t.fsm.Startup? ==> t.byteCount == taken)
    && (Loading(t.fsm) ==> taken <= BITSTREAM_SIZE)
    && (!Loading(t.fsm) && !Over(t.fsm) ==> taken == 0)
  }

  /** What a run from reset has established. */
  predicate Progress(t: State, taken: nat, matched: seq<Byte>) {
    && Counted(t, taken)
    && (if Over(t.fsm) then true else matched == SDB_SIGNATURE[..SigIndex(t.fsm)])
    && (taken > 0 ==> matched == SDB_SIGNATURE)
  }

  /** In every run from reset: the loader takes at most 0x408001 bytes, and none before all
      four signature bytes have matched. */
  lemma {:induction false} BootBounded(s: State, ins: seq<In>)
    requires s.fsm.Startup? && Enabled(ins)
    ensures Progress(Run(s, ins), Taken(s, ins), Matched(s, ins))
  {
    if ins != [] {
      var before, i := ins[..|ins| - 1], ins[|ins| - 1];
      BootBounded(s, before);
      ProgressStep(Run(s, before), i, Taken(s, before), Matched(s, before));
    }
  }

  lemma ProgressStep(t: State, i: In, taken: nat, matched: seq<Byte>)
    requires Progress(t, taken, matched) && i.rstN && i.enable
    ensures Progress(Next(t, i), taken + (if t.fsm.LoadBsByte? && i.rd then 1 else 0),
      matched + if Matches(t, i) then [i.flashData] else [])
  {
    assert matched + [] == matched;
    hide Counted;
    if Over(t.fsm) {
      ProgressOver(t, i, taken, matched);
    }
    hide Next;
    if Checking(t.fsm) {
      ProgressCheck(t, i, taken, matched);
    } else if Loading(t.fsm) {
      ProgressLoad(t, i, taken, matched);
    } else if Selecting(t.fsm) {
      ProgressSelect(t, i, taken, matched);
    }
  }

  lemma ProgressOver(t: State, i: In, taken: nat, matched: seq<Byte>)
    requires Progress(t, taken, matched) && i.rstN && i.enable && Over(t.fsm)
    ensures Progress(Next(t, i), taken, matched) && !Matches(t, i)
  {
    match t.fsm
    case NoBitstream =>
    case BootDone =>
  }

  lemma CountedStep(t: State, i: In, taken: nat)
    requires Counted(t, taken) && i.rstN && i.enable
    ensures Counted(Next(t, i), taken + if t.fsm.LoadBsByte? && i.rd then 1 else 0)
  {
    var matched := if Over(t.fsm) then SDB_SIGNATURE else SDB_SIGNATURE[..SigIndex(t.fsm)];
    hide Next, Counted;
    ProgressHolds(t, taken, matched);
    ProgressStep(t, i, taken, matched);
  }

  lemma ProgressHolds(t: State, taken: nat, matched: seq<Byte>)
    requires Counted(t, taken) && matched == if Over(t.fsm) then SDB_SIGNATURE else SDB_SIGNATURE[..SigIndex(t.fsm)]
    ensures Progress(t, taken, matched)
  {
    assert SDB_SIGNATURE[..4] == SDB_SIGNATURE;
  }

  lemma ProgressCheck(t: State, i: In, taken: nat, matched: seq<Byte>)
    requires Progress(t, taken, matched) && i.rstN && i.enable && Checking(t.fsm)
    ensures Progress(Next(t, i), taken, matched + if Matches(t, i) then [i.flashData] else [])
  {
    CheckTarget(t, i);
    hide Next;
    var k := SigIndex(t.fsm);
    assert matched + [] == matched;
    assert SDB_SIGNATURE[..k + 1] == SDB_SIGNATURE[..k] + [SDB_SIGNATURE[k]];
  }

  /** A comparison moves to the next byte, or to the end, and keeps the count. */
  lemma CheckTarget(t: State, i: In)
    requires i.rstN && i.enable && Checking(t.fsm)
    ensures var u := Next(t, i);
      && u.byteCount == t.byteCount
      && if !i.ready then u.fsm == t.fsm
         else if i.flashData == SDB_SIGNATURE[SigIndex(t.fsm)] then
           SigIndex(u.fsm) == SigIndex(t.fsm) + 1 && !Loading(u.fsm) && !Over(u.fsm) && !u.fsm.Startup?
         else u.fsm.NoBitstream?
  {
    CheckMoves(t, i);
    hide Next;
  }

  lemma CheckMoves(t: State, i: In)
    requires i.rstN && i.enable && Checking(t.fsm)
    ensures Next(t, i).byteCount == t.byteCount
    ensures Next(t, i).setAddr == t.setAddr && Next(t, i).start == t.start && Next(t, i).empty == t.empty
    ensures Next(t, i).read == (i.ready && !t.fsm.CheckSig3?)
    ensures Next(t, i).fsm ==
      if !i.ready then t.fsm
      else if i.flashData == SDB_SIGNATURE[SigIndex(t.fsm)] then AfterCheck(t.fsm) else NoBitstream
  {
  }

  /** A byte stays on offer until it is taken; then the next one is read, or loading ends. */
  lemma LoadMoves(t: State, i: In)
    requires i.rstN && i.enable && t.fsm.LoadBsByte?
    ensures var u := Next(t, i);
      && u.setAddr == t.setAddr && u.data == t.data && u.read == i.rd
      && u.byteCount == (t.byteCount + if i.rd then 1 else 0) % 0x1000000
      && u.fsm == if !i.rd then LoadBsByte else if i.done then BootDone
                  else if t.byteCount == BITSTREAM_SIZE then NoBitstream else FetchBsByte
  {
  }

  lemma ProgressLoad(t: State, i: In, taken: nat, matched: seq<Byte>)
    requires Progress(t, taken, matched) && i.rstN && i.enable && Loading(t.fsm)
    ensures Progress(Next(t, i), taken + (if t.fsm.LoadBsByte? && i.rd then 1 else 0), matched)
  {
    hide Next;
    assert SDB_SIGNATURE[..4] == SDB_SIGNATURE;
    match t.fsm
    case FetchBsByte => FetchMoves(t, i);
    case LoadBsByte => LoadMoves(t, i);
  }

  lemma FetchMoves(t: State, i: In)
    requires i.rstN && i.enable && t.fsm.FetchBsByte?
    ensures var u := Next(t, i);
      u.byteCount == t.byteCount && u.fsm == if i.ready then LoadBsByte else FetchBsByte
  {
  }

  /** Until the bitstream is selected nothing is counted, but STARTUP clears the counter. */
  lemma SelectMoves(t: State, i: In)
    requires i.rstN && i.enable && Selecting(t.fsm)
    ensures var u := Next(t, i);
      && u.byteCount == (if t.fsm.Startup? then 0 else t.byteCount)
      && u.fsm == match t.fsm
                  case Startup => SelectSdb
                  case SelectSdb => WaitSelectSdb
                  case WaitSelectSdb => if i.ready then CheckSig0 else WaitSelectSdb
                  case SelectBitstream => WaitSelectBitstream
                  case _ => if i.ready then FetchBsByte else WaitSelectBitstream
  {
    match t.fsm
    case Startup =>
    case SelectSdb =>
    case WaitSelectSdb =>
    case SelectBitstream =>
    case WaitSelectBitstream =>
  }

  lemma ProgressSelect(t: State, i: In, taken: nat, matched: seq<Byte>)
    requires Progress(t, taken, matched) && i.rstN && i.enable && Selecting(t.fsm)
    ensures Progress(Next(t, i), taken, matched)
  {
    hide Next;
    SelectMoves(t, i);
  }

  // ---- the no-bitstream report ----

  /** The report flag is dropped while disabled, else raised in NO_BITSTREAM and kept. */
  predicate ReportKept(t: State, i: In, u: State) {
    && (u.noBitstream <==> i.enable && (t.noBitstream || t.fsm.NoBitstream?))
    && (i.enable && t.fsm.NoBitstream? ==> u.fsm.NoBitstream?)
  }

  lemma ReportMoves(t: State, i: In)
    requires i.rstN
    ensures var u := Next(t, i);
      && ReportKept(t, i, u) && u.noBitstreamD0 == t.noBitstream
      && (u.noBitstreamP1 <==> t.noBitstream && !t.noBitstreamD0)
  {
    FlagOfFsm(t, i);
    hide BootFsm;
  }

  lemma FlagOfFsm(t: State, i: In)
    requires i.rstN
    ensures ReportKept(t, i, BootFsm(t, i))
  {
    if i.enable {
      if Checking(t.fsm) {
        FlagChecking(t, i);
      } else if Selecting(t.fsm) {
        FlagSelecting(t, i);
      } else {
        match t.fsm
        case FetchBsByte =>
        case LoadBsByte =>
        case NoBitstream =>
        case BootDone =>
      }
    }
  }

  lemma FlagChecking(t: State, i: In)
    requires i.rstN && i.enable && Checking(t.fsm)
    ensures ReportKept(t, i, BootFsm(t, i))
  {
  }

  lemma FlagSelecting(t: State, i: In)
    requires i.rstN && i.enable && Selecting(t.fsm)
    ensures ReportKept(t, i, BootFsm(t, i))
  {
    match t.fsm
    case Startup =>
    case SelectSdb =>
    case WaitSelectSdb =>
    case SelectBitstream =>
    case WaitSelectBitstream =>
  }
}
