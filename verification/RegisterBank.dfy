/** The loader's register bank: one access at a time, acknowledged through a shift register,
    with single-cycle strobes and pulses towards the rest of the System FPGA. */
module RegisterBank {
  import opened Bytes

  type U3 = x: int | 0 <= x < 8

  /** `ack_sreg`, bit 0 first. */
  type Sreg = v: seq<bool> | |v| == 10 witness seq(10, _ => false)

  const CSR: U3 := 0
  const BTRIGR: U3 := 1
  const FAR: U3 := 2
  const IDR: U3 := 3
  const FIFO_R0: U3 := 4
  const FIFO_R1: U3 := 5
  const FIFO_CSR: U3 := 6

  datatype In = In(rstN: bool, cyc: bool, stb: bool, we: bool, adr: U3, dat: Word)

  datatype FifoIn = FifoIn(size: U2, last: bool, data: Word)

  /** A monostable control bit: the bit as written, its delayed copy, and the pulse. */
  datatype Mono = Mono(bit: bool, dly: bool, pulse: bool)

  datatype Regs = Regs(
    start: Mono, swrst: Mono, exit: Mono, msbf: bool, clkdiv: U6,
    btrigrWr: bool, farLoad: bool, farXfer: bool, farCs: bool,
    fifoIn: FifoIn, wrreq: bool, clearBus: bool)

  datatype State = State(sreg: Sreg, inProgress: bool, r: Regs)

  predicate Bit(w: Word, n: nat)
    requires n < 32
  {
    Bits(w)[31 - n]
  }

  function Shifted(v: Sreg): Sreg { v[1..] + [false] }

  predicate Accepts(s: State, i: In) { i.rstN && !s.inProgress && i.cyc && i.stb }

  predicate AcceptsWrite(s: State, i: In, adr: U3) { Accepts(s, i) && i.we && i.adr == adr }

  predicate Ack(s: State) { s.sreg[0] }

  /** The delay register and the pulse of a control bit whose next value is `bit`. */
  function MonoNext(m: Mono, bit: bool): Mono { Mono(bit, m.bit, m.bit && !m.dly) }

  const OFF: Mono := Mono(false, false, false)

  const NO_ACK: Sreg := [false, false, false, false, false, false, false, false, false, false]

  /** The reset values; the FIFO input is not reset. */
  function Reset(f: FifoIn): State {
    State(NO_ACK, false, Regs(OFF, OFF, OFF, false, 0, false, false, false, false, f, false, false))
  }

  /** The registers as a write to `adr` leaves them. */
  function Written(r: Regs, adr: U3, dat: Word): Regs {
    if adr == CSR then
      r.(start := r.start.(bit := Bit(dat, 0)), msbf := Bit(dat, 4), swrst := r.swrst.(bit := Bit(dat, 5)),
         exit := r.exit.(bit := Bit(dat, 6)), clkdiv := dat[2] % 64)
    else if adr == BTRIGR then r.(btrigrWr := true)
    else if adr == FAR then r.(farLoad := true, farXfer := Bit(dat, 8), farCs := Bit(dat, 10))
    else if adr == FIFO_R0 then r.(fifoIn := r.fifoIn.(size := dat[3] % 4, last := Bit(dat, 2)))
    else if adr == FIFO_R1 then r.(fifoIn := r.fifoIn.(data := dat), wrreq := true)
    else if adr == FIFO_CSR then r.(clearBus := r.clearBus || Bit(dat, 18))
    else r
  }

  /** The end of an access. */
  function Cleared(r: Regs): Regs {
    r.(start := r.start.(bit := false), swrst := r.swrst.(bit := false), exit := r.exit.(bit := false),
       btrigrWr := false, farLoad := false, wrreq := false, clearBus := false)
  }

  /** The bank process: everything but the delay registers and pulses. */
  function Access(s: State, i: In): State {
    if s.inProgress then
      if Ack(s) then State(Shifted(s.sreg), false, Cleared(s.r))
      else State(Shifted(s.sreg), true, s.r.(btrigrWr := false, farLoad := false))
    else if i.cyc && i.stb then
      State(Shifted(s.sreg)[(if i.adr == CSR then 2 else 0) := true], true,
            if i.we then Written(s.r, i.adr, i.dat) else s.r)
    else State(Shifted(s.sreg), false, s.r)
  }

  /** The delay registers and pulses, from the old bits. */
  function Pulses(prev: Regs, r: Regs): Regs {
    r.(start := MonoNext(prev.start, r.start.bit), swrst := MonoNext(prev.swrst, r.swrst.bit),
       exit := MonoNext(prev.exit, r.exit.bit))
  }

  /** One rising edge: the access process and the three pulse generators. */
  function Next(s: State, i: In): State {
    if !i.rstN then Reset(s.r.fifoIn)
    else
      var t := Access(s, i);
      t.(r := Pulses(s.r, t.r))
  }

  class Bank {
    var state: State

    constructor (init: State)
      ensures state == init
    {
      state := init;
    }

    method Step(i: In)
      modifies this
      ensures state == Next(old(state), i)
    {
      if !i.rstN {
        state := Reset(state.r.fifoIn);
        return;
      }
      var sreg, inProgress, r := AccessProcess(i);
      var start := MonoNext(state.r.start, r.start.bit);
      var swrst := MonoNext(state.r.swrst, r.swrst.bit);
      var exit := MonoNext(state.r.exit, r.exit.bit);
      state := State(sreg, inProgress, r.(start := start, swrst := swrst, exit := exit));
    }

    method AccessProcess(i: In) returns (sreg: Sreg, inProgress: bool, r: Regs)
      ensures State(sreg, inProgress, r) == Access(state, i)
    {
      sreg := Shifted(state.sreg);
      inProgress, r := state.inProgress, state.r;
      if state.inProgress {
        if state.sreg[0] {
          r := Clear(r);
          inProgress := false;
        } else {
          r := r.(btrigrWr := false, farLoad := false);
        }
      } else if i.cyc && i.stb {
        if i.we {
          r := Write(r, i.adr, i.dat);
        }
        if i.adr == CSR {
          sreg := sreg[2 := true];
        } else {
          sreg := sreg[0 := true];
        }
        inProgress := true;
      }
    }

    method Clear(r: Regs) returns (next: Regs)
      ensures next == Cleared(r)
    {
      next := r.(start := r.start.(bit := false), swrst := r.swrst.(bit := false), exit := r.exit.(bit := false));
      next := next.(btrigrWr := false, farLoad := false, wrreq := false, clearBus := false);
    }

    method Write(r: Regs, adr: U3, dat: Word) returns (next: Regs)
      ensures next == Written(r, adr, dat)
    {
      next := r;
      if adr == CSR {
        next := next.(start := next.start.(bit := Bit(dat, 0)), msbf := Bit(dat, 4));
        next := next.(swrst := next.swrst.(bit := Bit(dat, 5)), exit := next.exit.(bit := Bit(dat, 6)));
        next := next.(clkdiv := dat[2] % 64);
      } else if adr == BTRIGR {
        next := next.(btrigrWr := true);
      } else if adr == FAR {
        next := next.(farLoad := true, farXfer := Bit(dat, 8), farCs := Bit(dat, 10));
      } else if adr == FIFO_R0 {
        next := next.(fifoIn := next.fifoIn.(size := dat[3] % 4, last := Bit(dat, 2)));
      } else if adr == FIFO_R1 {
        next := next.(fifoIn := next.fifoIn.(data := dat), wrreq := true);
      } else if adr == FIFO_CSR {
        if Bit(dat, 18) {
          next := next.(clearBus := true);
        }
      }
    }
  }

  // ---- what every run keeps ----

  predicate Strobing(r: Regs) { r.btrigrWr || r.farLoad || r.wrreq || r.clearBus }

  predicate Requesting(r: Regs) { r.start.bit || r.swrst.bit || r.exit.bit }

  /** A control bit rises only when its delayed copy has fallen. */
  predicate Fresh(r: Regs) { !r.start.dly && !r.swrst.dly && !r.exit.dly }

  predicate Spent(r: Regs) {
    (r.start.bit ==> r.start.dly) && (r.swrst.bit ==> r.swrst.dly) && (r.exit.bit ==> r.exit.dly)
  }

  /** At most one acknowledge is on its way, exactly while an access is in progress; a strobe
      coincides with its acknowledge. */
  predicate Orderly(s: State) {
    && (forall k :: 3 <= k < 10 ==> !s.sreg[k])
    && (s.inProgress <==> s.sreg[0] || s.sreg[1] || s.sreg[2])
    && (s.sreg[0] ==> !s.sreg[1] && !s.sreg[2]) && !(s.sreg[1] && s.sreg[2])
    && (Strobing(s.r) ==> s.sreg[0])
    && (!s.inProgress ==> !Requesting(s.r))
    && (if s.sreg[2] then Fresh(s.r) else Spent(s.r))
  }

  lemma WrittenKinds(r: Regs, adr: U3, dat: Word)
    requires !Strobing(r) && !Requesting(r)
    ensures var w := Written(r, adr, dat); if adr == CSR then !Strobing(w) else !Requesting(w)
  {
    hide Bit;
  }

  lemma PulsesKeep(prev: Regs, r: Regs)
    ensures var p := Pulses(prev, r);
      && (Strobing(p) <==> Strobing(r)) && (Requesting(p) <==> Requesting(r))
      && (!Requesting(prev) ==> Fresh(p))
      && (!Requesting(r) ==> Spent(p))
      && (r.start.bit == prev.start.bit && r.swrst.bit == prev.swrst.bit && r.exit.bit == prev.exit.bit ==> Spent(p))
  {
  }

  lemma OrderlyStep(s: State, i: In)
    requires Orderly(s)
    ensures Orderly(Next(s, i))
  {
    if i.rstN {
      var t := Access(s, i);
      assert forall k :: 0 <= k < 9 ==> Shifted(s.sreg)[k] == s.sreg[k + 1];
      WrittenKinds(if Strobing(s.r) || Requesting(s.r) then Cleared(s.r) else s.r, i.adr, i.dat);
      PulsesKeep(s.r, t.r);
      hide Pulses, Written, Bit;
    }
  }

  function Run(s: State, ins: seq<In>): State {
    if ins == [] then s else Next(Run(s, ins[..|ins| - 1]), ins[|ins| - 1])
  }

  lemma {:induction false} RunOrderly(s: State, ins: seq<In>)
    requires Orderly(s)
    ensures Orderly(Run(s, ins))
  {
    if ins != [] {
      RunOrderly(s, ins[..|ins| - 1]);
      OrderlyStep(Run(s, ins[..|ins| - 1]), ins[|ins| - 1]);
    }
  }

  // ---- strobes ----

  /** A strobe is the accepted write, one cycle later; it lasts one cycle, since an access in
      progress accepts nothing. */
  lemma StrobeExact(s: State, i: In)
    requires Orderly(s)
    ensures var r := Next(s, i).r;
      && (r.btrigrWr <==> AcceptsWrite(s, i, BTRIGR))
      && (r.farLoad <==> AcceptsWrite(s, i, FAR))
      && (r.wrreq <==> AcceptsWrite(s, i, FIFO_R1))
      && (r.clearBus <==> AcceptsWrite(s, i, FIFO_CSR) && Bit(i.dat, 18))
    ensures Strobing(s.r) ==> !Strobing(Next(s, i).r)
  {
    hide Bit;
  }

  /** Byte order, divider and chip select change only by an accepted write to their register. */
  lemma ControlKept(s: State, i: In)
    requires i.rstN
    ensures var r := Next(s, i).r;
      && (!AcceptsWrite(s, i, CSR) ==> r.msbf == s.r.msbf && r.clkdiv == s.r.clkdiv)
      && (!AcceptsWrite(s, i, FAR) ==> r.farXfer == s.r.farXfer && r.farCs == s.r.farCs)
  {
    WrittenControl(s.r, i.adr, i.dat);
    hide Written, Bit;
  }

  lemma WrittenControl(r: Regs, adr: U3, dat: Word)
    ensures var w := Written(r, adr, dat);
      && (adr != CSR ==> w.msbf == r.msbf && w.clkdiv == r.clkdiv)
      && (adr != FAR ==> w.farXfer == r.farXfer && w.farCs == r.farCs)
  {
    hide Bit;
  }

  // ---- acknowledges and pulses, counted ----

  datatype Event = Acknowledge | StartPulse | SwrstPulse | ExitPulse

  function MonoOf(r: Regs, e: Event): Mono
    requires !e.Acknowledge?
  {
    match e case StartPulse => r.start case SwrstPulse => r.swrst case ExitPulse => r.exit
  }

  /** The event shows at the outputs. */
  predicate Happens(e: Event, s: State) {
    if e.Acknowledge? then Ack(s) else MonoOf(s.r, e).pulse
  }

  /** The bus asks for the event: by any access, or by a CSR write with the bit set. */
  predicate Asks(e: Event, s: State, i: In) {
    if e.Acknowledge? then Accepts(s, i)
    else AcceptsWrite(s, i, CSR) && Bit(i.dat, match e case StartPulse => 0 case SwrstPulse => 5 case ExitPulse => 6)
  }

  /** Asked for and not yet shown. */
  predicate Due(e: Event, s: State) {
    if e.Acknowledge? then s.inProgress && !Ack(s) else MonoOf(s.r, e).bit && !MonoOf(s.r, e).dly
  }

  function One(b: bool): nat { if b then 1 else 0 }

  lemma EventStep(e: Event, s: State, i: In)
    requires Orderly(s) && i.rstN
    ensures One(Happens(e, Next(s, i))) + One(Due(e, Next(s, i))) == One(Due(e, s)) + One(Asks(e, s, i))
  {
    assert Shifted(s.sreg)[0] == s.sreg[1] && Shifted(s.sreg)[2] == s.sreg[3];
    hide Bit;
  }

  /** A pulse is the CSR write that asked for it, exactly two cycles later. */
  lemma PulseTwoLater(e: Event, s: State, i: In, j: In)
    requires !e.Acknowledge? && Orderly(s) && i.rstN && j.rstN
    ensures Happens(e, Next(Next(s, i), j)) <==> Asks(e, s, i)
  {
    EventStep(e, s, i);
    assert Happens(e, Next(s, i)) <==> Due(e, s);
    assert Happens(e, Next(Next(s, i), j)) <==> Due(e, Next(s, i));
    hide Orderly, Asks, Next;
  }

  /** After a reset nothing is under way. */
  lemma ResetQuiet(f: FifoIn, e: Event, i: In)
    requires i.rstN
    ensures Orderly(Reset(f)) && !Happens(e, Reset(f)) && (!e.Acknowledge? ==> !Happens(e, Next(Reset(f), i)))
  {
  }

  predicate OutOfReset(ins: seq<In>) { forall j :: 0 <= j < |ins| ==> ins[j].rstN }

  function Happened(e: Event, s: State, ins: seq<In>): nat {
    if ins == [] then 0 else Happened(e, s, ins[..|ins| - 1]) + One(Happens(e, Run(s, ins)))
  }

  function Asked(e: Event, s: State, ins: seq<In>): nat {
    if ins == [] then 0
    else
      var before := ins[..|ins| - 1];
      Asked(e, s, before) + One(Asks(e, Run(s, before), ins[|ins| - 1]))
  }

  /** Over every bus run: exactly one acknowledge per accepted access, and exactly one START,
      SWRST or EXIT pulse per accepted CSR write with that bit, but for one that is still due. */
  lemma {:induction false} EventsExact(e: Event, s: State, ins: seq<In>)
    requires Orderly(s) && OutOfReset(ins)
    ensures Happened(e, s, ins) + One(Due(e, Run(s, ins))) == Asked(e, s, ins) + One(Due(e, s))
  {
    if ins != [] {
      var before := ins[..|ins| - 1];
      EventsExact(e, s, before);
      RunOrderly(s, before);
      EventStep(e, Run(s, before), ins[|ins| - 1]);
    }
  }

  /** What is due shows within two cycles, without another access being accepted. */
  lemma DueSoon(e: Event, s: State, i: In, j: In)
    requires Orderly(s) && i.rstN && j.rstN && Due(e, s)
    ensures Happens(e, Next(s, i)) || Happens(e, Next(Next(s, i), j))
    ensures !Accepts(s, i) && (Happens(e, Next(s, i)) || !Accepts(Next(s, i), j))
  {
    assert Shifted(s.sreg)[0] == s.sreg[1] && Shifted(s.sreg)[1] == s.sreg[2];
    var t := Next(s, i);
    assert Shifted(t.sreg)[0] == t.sreg[1];
  }

  // ---- the FIFO's write side ----

  /** What reaches the FIFO, cycle by cycle. */
  function Pushed(s: State, ins: seq<In>): seq<FifoIn> {
    if ins == [] then []
    else
      var t := Run(s, ins);
      Pushed(s, ins[..|ins| - 1]) + if t.r.wrreq then [t.r.fifoIn] else []
  }

  datatype Write = Write(adr: U3, dat: Word)

  /** The accepted writes. */
  function Writes(s: State, ins: seq<In>): seq<Write> {
    if ins == [] then []
    else
      var before, i := ins[..|ins| - 1], ins[|ins| - 1];
      Writes(s, before) + if Accepts(Run(s, before), i) && i.we then [Write(i.adr, i.dat)] else []
  }

  /** The host's view: R0 sets the size and the mark, R1 pushes its word with them. */
  function HostView(f: FifoIn, ws: seq<Write>): (FifoIn, seq<FifoIn>) {
    if ws == [] then (f, [])
    else
      var (g, pushed) := HostView(f, ws[..|ws| - 1]);
      var w := ws[|ws| - 1];
      if w.adr == FIFO_R0 then (g.(size := w.dat[3] % 4, last := Bit(w.dat, 2)), pushed)
      else if w.adr == FIFO_R1 then (g.(data := w.dat), pushed + [g.(data := w.dat)])
      else (g, pushed)
  }

  lemma FifoInStep(s: State, i: In)
    requires Orderly(s)
    ensures Next(s, i).r.fifoIn ==
      if AcceptsWrite(s, i, FIFO_R0) then s.r.fifoIn.(size := i.dat[3] % 4, last := Bit(i.dat, 2))
      else if AcceptsWrite(s, i, FIFO_R1) then s.r.fifoIn.(data := i.dat)
      else s.r.fifoIn
  {
    hide Bit;
  }

  /** Every accepted R1 write pushes exactly one entry, paired with the latest R0 write before it. */
  lemma {:induction false} PushesPaired(s: State, ins: seq<In>)
    requires Orderly(s)
    ensures HostView(s.r.fifoIn, Writes(s, ins)) == (Run(s, ins).r.fifoIn, Pushed(s, ins))
  {
    if ins != [] {
      var before, i := ins[..|ins| - 1], ins[|ins| - 1];
      PushesPaired(s, before);
      RunOrderly(s, before);
      var t := Run(s, before);
      FifoInStep(t, i);
      StrobeExact(t, i);
      hide Next, Orderly, Bit;
      var ws, w := Writes(s, before), Write(i.adr, i.dat);
      assert ws + [] == ws && Pushed(s, before) + [] == Pushed(s, before);
      assert (ws + [w])[..|ws|] == ws && (ws + [w])[|ws|] == w;
    }
  }

  // ---- the two unregistered data fields ----

  /** The bus master keeps an access unchanged until it is acknowledged (`wb_stall_o`). */
  predicate Holds(s: State, ins: seq<In>) {
    forall j {:trigger ins[..j]} ::
      0 <= j < |ins| - 1 && ins[j].cyc && ins[j].stb && !Ack(Run(s, ins[..j])) ==> ins[j + 1] == ins[j]
  }

  /** The trigger byte and the SPI byte are passed through from the bus with a strobe. */
  predicate PassedThrough(adr: U3) { adr == BTRIGR || adr == FAR }

  predicate StrobeOf(r: Regs, adr: U3)
    requires PassedThrough(adr)
  {
    if adr == BTRIGR then r.btrigrWr else r.farLoad
  }

  /** The low byte of the bus whenever the strobe is out. */
  function Strobed(s: State, ins: seq<In>, adr: U3): seq<Byte>
    requires PassedThrough(adr)
  {
    if ins == [] then []
    else
      var before, i := ins[..|ins| - 1], ins[|ins| - 1];
      Strobed(s, before, adr) + if StrobeOf(Run(s, before).r, adr) then [i.dat[3]] else []
  }

  /** The low bytes of the writes to a register. */
  function BytesTo(ws: seq<Write>, adr: U3): seq<Byte> {
    if ws == [] then []
    else BytesTo(ws[..|ws| - 1], adr) + if ws[|ws| - 1].adr == adr then [ws[|ws| - 1].dat[3]] else []
  }

  /** With a master that holds its access, the strobes of BTRIGR, and those of FAR, carry exactly
      the accepted writes' bytes, in order; the last one may still be under way. */
  lemma {:induction false} BytesCarried(s: State, ins: seq<In>, adr: U3)
    requires PassedThrough(adr)
    requires Orderly(s) && !StrobeOf(s.r, adr) && Holds(s, ins) && OutOfReset(ins)
    ensures BytesTo(Writes(s, ins), adr) ==
      Strobed(s, ins, adr) + if StrobeOf(Run(s, ins).r, adr) then [ins[|ins| - 1].dat[3]] else []
  {
    if ins != [] {
      var before, n := ins[..|ins| - 1], |ins| - 1;
      assert Holds(s, before) by {
        assert forall j :: 0 <= j < n ==> before[..j] == ins[..j];
      }
      BytesCarried(s, before, adr);
      RunOrderly(s, before);
      var t := Run(s, before);
      StrobeExact(t, ins[n]);
      OneMoreWrite(Writes(s, before), Write(ins[n].adr, ins[n].dat), adr);
      assert Writes(s, before) + [] == Writes(s, before);
      if StrobeOf(t.r, adr) {
        HeldStrobe(s, ins, adr);
      }
    }
  }

  lemma OneMoreWrite(ws: seq<Write>, w: Write, adr: U3)
    ensures BytesTo(ws + [w], adr) == BytesTo(ws, adr) + if w.adr == adr then [w.dat[3]] else []
  {
    assert (ws + [w])[..|ws|] == ws;
  }

  lemma HeldStrobe(s: State, ins: seq<In>, adr: U3)
    requires PassedThrough(adr)
    requires Orderly(s) && !StrobeOf(s.r, adr) && Holds(s, ins) && ins != []
    requires StrobeOf(Run(s, ins[..|ins| - 1]).r, adr)
    ensures |ins| >= 2 && ins[|ins| - 1] == ins[|ins| - 2]
  {
    var n := |ins| - 1;
    assert n > 0;
    assert ins[..n][..n - 1] == ins[..n - 1];
    RunOrderly(s, ins[..n - 1]);
    StrobeExact(Run(s, ins[..n - 1]), ins[n - 1]);
    assert AcceptsWrite(Run(s, ins[..n - 1]), ins[n - 1], adr);
  }
}
