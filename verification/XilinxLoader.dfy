/** The serial loader of the Application FPGA: a clock divider and a twelve-state machine
    that pops entries, shifts them out MSB first on DIN/CCLK and watches INIT_B and DONE. */
module XilinxLoader {
  import opened Bytes

  datatype Fsm =
    | Idle | WaitInit | WaitInit2 | ReadFifo | ReadFifo2 | OutputBit | ClockEdge
    | WaitDone | ExtendProg | StartupCclk0 | StartupCclk1 | GotDone

  type U5 = x: int | 0 <= x < 32
  type U7 = x: int | 0 <= x < 128
  type U21 = x: int | 0 <= x < 0x200000

  /** A 32-bit shift register, bit 31 first. */
  type Vec32 = v: seq<bool> | |v| == 32 witness seq(32, _ => false)

  const MIN_PROG_DELAY: U21 := 1000
  const INIT_TIMEOUT: U21 := 200000
  const DONE_TIMEOUT: U21 := 200000
  const STARTUP_CYCLES: U21 := 1024

  /** One clock cycle's input pins; `initB` and `done` are the synchronised samples. */
  datatype In = In(
    rstN: bool, swrst: bool, start: bool, clkDiv: U7,
    data: Word, dsize: U2, msbf: bool, dlast: bool, empty: bool,
    startup: bool, initB: bool, done: bool)

  datatype State = State(
    fsm: Fsm, clkDiv: U7, tick: bool, timeout: U21,
    dData: Vec32, dLast: bool, bitCounter: U5, startupCount: U21,
    cclk: bool, din: bool, programB: bool, csrDone: bool, csrError: bool)

  function Dec21(x: U21): U21 { if x == 0 then 0x1FFFFF else x - 1 }

  function Dec5(x: U5): U5 { if x == 0 then 31 else x - 1 }

  /** The data word in the order its bytes leave the chip. */
  function Ordered(msbf: bool, w: Word): Word {
    if msbf then w else Reversed(w)
  }

  function Shifted(v: Vec32): Vec32 { v[1..] + [v[31]] }

  function DivideClock(s: State, i: In): (U7, bool) {
    if !i.rstN then (0, false)
    else if s.clkDiv == i.clkDiv then (0, true)
    else ((s.clkDiv + 1) % 128, false)
  }

  /** The main machine after a reset of the chip or of the loader alone. */
  function Restarted(s: State): State {
    s.(fsm := Idle, programB := true, cclk := false, din := false, timeout := 0,
       csrDone := false, csrError := false)
  }

  predicate Beginning(f: Fsm) { f.Idle? || f.ExtendProg? || f.WaitInit? || f.WaitInit2? }

  predicate Shifting(f: Fsm) { f.ReadFifo? || f.ReadFifo2? || f.OutputBit? || f.ClockEdge? }

  /** From START to INIT_B released. */
  function BeginFsm(s: State, i: In): State
    requires Beginning(s.fsm)
  {
    match s.fsm
    case Idle =>
      if i.start then
        s.(fsm := ExtendProg, programB := false, csrDone := false, csrError := false, timeout := MIN_PROG_DELAY)
      else
        s.(programB := true, cclk := false, din := false, timeout := INIT_TIMEOUT)
    case ExtendProg =>
      if s.timeout == 0 then s.(fsm := WaitInit, timeout := INIT_TIMEOUT)
      else s.(timeout := s.timeout - 1)
    case WaitInit =>
      var expired := s.timeout == 0;
      s.(timeout := Dec21(s.timeout),
         csrDone := s.csrDone || expired,
         csrError := s.csrError || expired,
         fsm := if !i.initB then WaitInit2 else if expired then Idle else WaitInit,
         programB := s.programB || !i.initB)
    case WaitInit2 =>
      if i.initB then s.(fsm := ReadFifo) else s
  }

  /** Popping an entry and shifting it out. */
  function ShiftFsm(s: State, i: In): State
    requires Shifting(s.fsm)
  {
    match s.fsm
    case ReadFifo =>
      s.(cclk := false, fsm := if i.empty then ReadFifo else ReadFifo2)
    case ReadFifo2 =>
      var latched := s.(dData := Bits(Ordered(i.msbf, i.data)), dLast := i.dlast);
      if s.tick then latched.(fsm := OutputBit, bitCounter := 8 * i.dsize + 7) else latched
    case OutputBit =>
      if s.tick then
        s.(din := s.dData[0], cclk := false, dData := Shifted(s.dData),
           fsm := if i.done then GotDone else ClockEdge)
      else s
    case ClockEdge =>
      if s.tick then
        s.(cclk := true, bitCounter := Dec5(s.bitCounter),
           fsm := if s.bitCounter != 0 then OutputBit else if s.dLast then WaitDone else ReadFifo,
           timeout := if s.bitCounter == 0 && s.dLast then DONE_TIMEOUT else s.timeout)
      else s
  }

  /** Waiting for DONE, and the startup clocks after it. */
  function FinishFsm(s: State, i: In): State
    requires !Beginning(s.fsm) && !Shifting(s.fsm)
  {
    match s.fsm
    case WaitDone =>
      var next := s.(timeout := Dec21(s.timeout));
      if s.timeout == 0 then next.(fsm := Idle, csrDone := true, csrError := true)
      else if i.done then next.(fsm := Idle, csrDone := true, csrError := false)
      else next
    case GotDone =>
      var next := s.(csrDone := true, csrError := false);
      if i.startup then next.(fsm := StartupCclk0, startupCount := 0) else next
    case StartupCclk0 =>
      if s.tick then s.(din := false, cclk := false, fsm := StartupCclk1) else s.(din := false)
    case StartupCclk1 =>
      if s.tick then
        s.(cclk := true, startupCount := (s.startupCount + 1) % 0x200000,
           fsm := if s.startupCount == STARTUP_CYCLES then Idle else StartupCclk0)
      else s
  }

  /** The main machine; the divider is added by `Next`. */
  function MainFsm(s: State, i: In): State {
    if !i.rstN || i.swrst then Restarted(s)
    else if Beginning(s.fsm) then BeginFsm(s, i)
    else if Shifting(s.fsm) then ShiftFsm(s, i)
    else FinishFsm(s, i)
  }

  /** One rising edge of the system clock. */
  function Next(s: State, i: In): State {
    var (div, tick) := DivideClock(s, i);
    MainFsm(s, i).(clkDiv := div, tick := tick)
  }

  /** `csr_rd_o`: the request that removes an entry from the FIFO. */
  predicate CsrRd(s: State, i: In) {
    !i.empty && (s.fsm == Idle || s.fsm == ReadFifo)
  }

  /** The entity itself. `regs` holds its registers; a clock edge reads `regs`, collects the
      scheduled assignments in `next`, where a later one overrides an earlier one, and then
      commits them all at once. */
  class Loader {
    var regs: State

    constructor (init: State)
      ensures regs == init
    {
      regs := init;
    }

    method Step(i: In)
      modifies this
      ensures regs == Next(old(regs), i)
    {
      var next := regs;
      if !i.rstN || i.swrst {
        next := next.(fsm := Idle, programB := true, cclk := false, din := false, timeout := 0);
        next := next.(csrDone := false, csrError := false);
      } else if regs.fsm.Idle? || regs.fsm.ExtendProg? {
        next := Start(i);
      } else if regs.fsm.WaitInit? || regs.fsm.WaitInit2? {
        next := AwaitInit(i);
      } else if regs.fsm.ReadFifo? || regs.fsm.ReadFifo2? {
        next := PopEntry(i);
      } else if Shifting(regs.fsm) {
        next := ShiftBit(i);
      } else if regs.fsm.WaitDone? {
        next := AwaitDone(i);
      } else {
        next := StartUp(i);
      }
      if !i.rstN {
        next := next.(clkDiv := 0, tick := false);
      } else if regs.clkDiv == i.clkDiv {
        next := next.(tick := true, clkDiv := 0);
      } else {
        next := next.(tick := false, clkDiv := (regs.clkDiv + 1) % 128);
      }
      regs := next;
    }

    method Start(i: In) returns (next: State)
      requires regs.fsm.Idle? || regs.fsm.ExtendProg?
      ensures next == BeginFsm(regs, i)
    {
      next := regs;
      match regs.fsm {
        case Idle =>
          next := next.(timeout := INIT_TIMEOUT);
          if i.start {
            next := next.(programB := false, csrDone := false, csrError := false, fsm := ExtendProg);
            next := next.(timeout := MIN_PROG_DELAY);
          } else {
            next := next.(programB := true, cclk := false, din := false);
          }
        case ExtendProg =>
          next := next.(timeout := Dec21(regs.timeout));
          if regs.timeout == 0 {
            next := next.(timeout := INIT_TIMEOUT, fsm := WaitInit);
          }
      }
    }

    method AwaitInit(i: In) returns (next: State)
      requires regs.fsm.WaitInit? || regs.fsm.WaitInit2?
      ensures next == BeginFsm(regs, i)
    {
      next := regs;
      match regs.fsm {
        case WaitInit =>
          next := next.(timeout := Dec21(regs.timeout));
          if regs.timeout == 0 {
            next := next.(csrDone := true, csrError := true, fsm := Idle);
          }
          if !i.initB {
            next := next.(fsm := WaitInit2, programB := true);
          }
        case WaitInit2 =>
          if i.initB {
            next := next.(fsm := ReadFifo);
          }
      }
    }

    method PopEntry(i: In) returns (next: State)
      requires regs.fsm.ReadFifo? || regs.fsm.ReadFifo2?
      ensures next == ShiftFsm(regs, i)
    {
      next := regs;
      match regs.fsm {
        case ReadFifo =>
          next := next.(cclk := false);
          if !i.empty {
            next := next.(fsm := ReadFifo2);
          }
        case ReadFifo2 =>
          if i.msbf {
            next := next.(dData := Bits(i.data));
          } else {
            next := next.(dData := Bits(Reversed(i.data)));
          }
          next := next.(dLast := i.dlast);
          if regs.tick {
            next := next.(fsm := OutputBit, bitCounter := 8 * i.dsize + 7);
          }
      }
    }

    method ShiftBit(i: In) returns (next: State)
      requires regs.fsm.OutputBit? || regs.fsm.ClockEdge?
      ensures next == ShiftFsm(regs, i)
    {
      next := regs;
      match regs.fsm {
        case OutputBit =>
          if regs.tick {
            next := next.(din := regs.dData[0], cclk := false, dData := Shifted(regs.dData));
            if i.done {
              next := next.(fsm := GotDone);
            } else {
              next := next.(fsm := ClockEdge);
            }
          }
        case ClockEdge =>
          if regs.tick {
            next := next.(cclk := true, bitCounter := Dec5(regs.bitCounter));
            if regs.bitCounter == 0 {
              if regs.dLast {
                next := next.(fsm := WaitDone, timeout := DONE_TIMEOUT);
              } else {
                next := next.(fsm := ReadFifo);
              }
            } else {
              next := next.(fsm := OutputBit);
            }
          }
      }
    }

    method AwaitDone(i: In) returns (next: State)
      requires regs.fsm.WaitDone?
      ensures next == FinishFsm(regs, i)
    {
      next := regs;
      if i.done {
        next := next.(fsm := Idle, csrDone := true, csrError := false);
      }
      next := next.(timeout := Dec21(regs.timeout));
      if regs.timeout == 0 {
        next := next.(fsm := Idle, csrDone := true, csrError := true);
      }
    }

    method StartUp(i: In) returns (next: State)
      requires regs.fsm.GotDone? || regs.fsm.StartupCclk0? || regs.fsm.StartupCclk1?
      ensures next == FinishFsm(regs, i)
    {
      next := regs;
      match regs.fsm {
        case GotDone =>
          next := next.(csrDone := true, csrError := false);
          if i.startup {
            next := next.(fsm := StartupCclk0, startupCount := 0);
          }
        case StartupCclk0 =>
          next := next.(din := false);
          if regs.tick {
            next := next.(cclk := false, fsm := StartupCclk1);
          }
        case StartupCclk1 =>
          if regs.tick {
            next := next.(cclk := true);
            next := next.(fsm := if regs.startupCount == STARTUP_CYCLES then Idle else StartupCclk0);
            next := next.(startupCount := (regs.startupCount + 1) % 0x200000);
          }
      }
    }
  }
}
