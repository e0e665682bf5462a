/** The register bank, the trigger detector, the boot source and the bus controller together:
    every way the bootloader can get onto the VME bus. */
module SystemFpga {
  import opened Bytes
  import RegisterBank
  import BootTrigger
  import BootSource
  import FlashBoot
  import BusOwnership
  import Driver
  import HostPath

  datatype State = State(
    bank: RegisterBank.State, det: BootTrigger.State, boot: BootSource.State, own: BusOwnership.State)

  /** The bus, the flash controller's answer, the loader's request and done flag, VME idle. */
  datatype In = In(bus: RegisterBank.In, ready: bool, flashData: Byte, rd: bool, done: bool, idle: bool)

  function DetIn(s: State, i: In): BootTrigger.In {
    BootTrigger.In(i.bus.rstN, s.bank.r.btrigrWr, i.bus.dat[3])
  }

  function BootIn(s: State, i: In): BootSource.In {
    BootSource.In(i.bus.rstN, s.det.pulse, i.ready, i.flashData, i.rd, i.done)
  }

  /** `boot_trig_p1_o` and `boot_exit_p1_o`. */
  function OwnIn(s: State, i: In): BusOwnership.In {
    BusOwnership.In(i.bus.rstN, s.det.pulse || s.boot.fb.noBitstreamP1, s.bank.r.exit.pulse, i.idle)
  }

  function Next(s: State, i: In): State {
    State(RegisterBank.Next(s.bank, i.bus), BootTrigger.Next(s.det, DetIn(s, i)), BootSource.Next(s.boot, BootIn(s, i)),
          BusOwnership.Next(s.own, OwnIn(s, i)))
  }

  function Run(s: State, ins: seq<In>): State {
    if ins == [] then s else Next(Run(s, ins[..|ins| - 1]), ins[|ins| - 1])
  }

  /** After the power-up reset. */
  predicate AfterReset(s: State) {
    && s.bank == RegisterBank.Reset(s.bank.r.fifoIn) && s.det == BootTrigger.START
    && BootSource.AfterReset(s.boot) && s.own == BusOwnership.POWER_UP
  }

  /** One cycle of reset, from any state, gives exactly that, but for the sample that is not reset. */
  lemma ResetGives(s: State, i: In)
    requires !i.bus.rstN
    ensures var t := Next(s, i);
      && AfterReset(t.(own := t.own.(erasingD0 := false))) && t.bank.r.fifoIn == s.bank.r.fifoIn
      && (AfterReset(t) <==> !s.own.erasingD0)
  {
    BootSource.ResetSelectsFlash(s.boot, BootIn(s, i));
    hide FlashBoot.Next;
  }

  lemma BankAtReset(s: State)
    requires AfterReset(s)
    ensures RegisterBank.Orderly(s.bank) && !s.bank.r.btrigrWr
  {
  }

  predicate OutOfReset(ins: seq<In>) { forall j :: 0 <= j < |ins| ==> ins[j].bus.rstN }

  // ---- what each component sees ----

  function BusIns(ins: seq<In>): (r: seq<RegisterBank.In>)
    ensures |r| == |ins|
  {
    if ins == [] then [] else BusIns(ins[..|ins| - 1]) + [ins[|ins| - 1].bus]
  }

  function DetIns(s: State, ins: seq<In>): (r: seq<BootTrigger.In>)
    ensures |r| == |ins|
  {
    if ins == [] then []
    else
      var before := ins[..|ins| - 1];
      DetIns(s, before) + [DetIn(Run(s, before), ins[|ins| - 1])]
  }

  function BootIns(s: State, ins: seq<In>): (r: seq<BootSource.In>)
    ensures |r| == |ins|
  {
    if ins == [] then []
    else
      var before := ins[..|ins| - 1];
      BootIns(s, before) + [BootIn(Run(s, before), ins[|ins| - 1])]
  }

  function OwnIns(s: State, ins: seq<In>): (r: seq<BusOwnership.In>)
    ensures |r| == |ins|
  {
    if ins == [] then []
    else
      var before := ins[..|ins| - 1];
      OwnIns(s, before) + [OwnIn(Run(s, before), ins[|ins| - 1])]
  }

  /** Each component runs on its own inputs. */
  lemma {:induction false} Components(s: State, ins: seq<In>)
    ensures var t := Run(s, ins);
      && t.bank == RegisterBank.Run(s.bank, BusIns(ins))
      && t.det == BootTrigger.Run(s.det, DetIns(s, ins))
      && t.boot == BootSource.Run(s.boot, BootIns(s, ins))
      && t.own == BusOwnership.Run(s.own, OwnIns(s, ins))
  {
    if ins != [] {
      var before, n := ins[..|ins| - 1], |ins| - 1;
      Components(s, before);
      assert BusIns(ins)[..n] == BusIns(before) && DetIns(s, ins)[..n] == DetIns(s, before);
      assert BootIns(s, ins)[..n] == BootIns(s, before) && OwnIns(s, ins)[..n] == OwnIns(s, before);
      hide RegisterBank.Next, BootTrigger.Next, BootSource.Next, BusOwnership.Next;
    }
  }

  lemma {:induction false} InputAt(s: State, ins: seq<In>, k: nat)
    requires k < |ins|
    ensures BusIns(ins)[..k] == BusIns(ins[..k]) && BusIns(ins)[k] == ins[k].bus
    ensures OwnIns(s, ins)[k] == OwnIn(Run(s, ins[..k]), ins[k])
    ensures DetIns(s, ins)[k] == DetIn(Run(s, ins[..k]), ins[k])
  {
    hide Next, Run, OwnIn, DetIn;
    var before, n := ins[..|ins| - 1], |ins| - 1;
    if k < n {
      InputAt(s, before, k);
      assert before[..k] == ins[..k];
      assert BusIns(ins)[..k] == BusIns(before)[..k];
    } else {
      assert BusIns(ins)[..k] == BusIns(before);
    }
  }

  /** The register bank never strobes BTRIGR in adjacent cycles, so the detector loses nothing. */
  lemma StrobesSpaced(s: State, ins: seq<In>)
    requires RegisterBank.Orderly(s.bank) && OutOfReset(ins)
    ensures BootTrigger.Spaced(DetIns(s, ins))
  {
    hide Run, BusIns, DetIns, OwnIns, OwnIn, RegisterBank.Orderly;
    var ds := DetIns(s, ins);
    forall j | 0 <= j < |ins|
      ensures ds[j].rstN
    {
      InputAt(s, ins, j);
    }
    forall j | 0 < j < |ins|
      ensures !(ds[j - 1].wr && ds[j].wr)
    {
      InputAt(s, ins, j);
      InputAt(s, ins, j - 1);
      NotAdjacent(s, ins[..j]);
      assert ins[..j][..j - 1] == ins[..j - 1];
    }
  }

  lemma NotAdjacent(s: State, ins: seq<In>)
    requires RegisterBank.Orderly(s.bank) && ins != []
    ensures !(Run(s, ins[..|ins| - 1]).bank.r.btrigrWr && Run(s, ins).bank.r.btrigrWr)
  {
    var before := ins[..|ins| - 1];
    Components(s, before);
    RegisterBank.RunOrderly(s.bank, BusIns(before));
    RegisterBank.StrobeExact(Run(s, before).bank, ins[|ins| - 1].bus);
    hide RegisterBank.Orderly, RegisterBank.Next;
  }

  /** The detector sees what the strobes carry. */
  lemma {:induction false} DetectorSees(s: State, ins: seq<In>)
    ensures BootTrigger.Written(DetIns(s, ins)) == RegisterBank.Strobed(s.bank, BusIns(ins), RegisterBank.BTRIGR)
  {
    if ins != [] {
      var before, n := ins[..|ins| - 1], |ins| - 1;
      DetectorSees(s, before);
      Components(s, before);
      assert DetIns(s, ins)[..n] == DetIns(s, before) && BusIns(ins)[..n] == BusIns(before);
      hide Next, RegisterBank.Next;
    }
  }

  /** The accepted BTRIGR writes of the bus. */
  function TriggerWrites(s: State, ins: seq<In>): seq<Byte> {
    RegisterBank.BytesTo(RegisterBank.Writes(s.bank, BusIns(ins)), RegisterBank.BTRIGR)
  }

  /** The eight most recent trigger writes the detector has seen; one more may be under way. */
  predicate EndsInMagic(ws: seq<Byte>) {
    exists n {:trigger ws[..n]} :: 8 <= n <= |ws| <= n + 1 && ws[..n][n - 8..] == BootTrigger.MAGIC
  }

  /** The detector's pulse means that the host has written the magic sequence. */
  lemma PulseMeansMagic(s: State, ins: seq<In>)
    requires AfterReset(s) && OutOfReset(ins) && RegisterBank.Holds(s.bank, BusIns(ins))
    requires Run(s, ins).det.pulse
    ensures EndsInMagic(TriggerWrites(s, ins))
  {
    hide RegisterBank.Orderly, RegisterBank.Reset, RegisterBank.Holds, OutOfReset, Run;
    hide BootTrigger.Follows, RegisterBank.Strobed, RegisterBank.Run, BootTrigger.Run, BootTrigger.Written;
    BankAtReset(s);
    StrobesSpaced(s, ins);
    DetectorSees(s, ins);
    Components(s, ins);
    BootTrigger.DetectorRefines(DetIns(s, ins));
    BusOutOfReset(s, ins);
    RegisterBank.BytesCarried(s.bank, BusIns(ins), RegisterBank.BTRIGR);
    var seen := RegisterBank.Strobed(s.bank, BusIns(ins), RegisterBank.BTRIGR);
    assert TriggerWrites(s, ins)[..|seen|] == seen;
  }

  lemma BusOutOfReset(s: State, ins: seq<In>)
    requires OutOfReset(ins)
    ensures RegisterBank.OutOfReset(BusIns(ins)) && BusOwnership.OutOfReset(OwnIns(s, ins))
  {
    forall j | 0 <= j < |ins|
      ensures BusIns(ins)[j].rstN && OwnIns(s, ins)[j].rstN
    {
      InputAt(s, ins, j);
    }
  }

  lemma HoldsPrefix(s: RegisterBank.State, ins: seq<RegisterBank.In>, k: nat)
    requires k <= |ins| && RegisterBank.Holds(s, ins)
    ensures RegisterBank.Holds(s, ins[..k])
  {
    assert forall j :: 0 <= j < k ==> ins[..k][..j] == ins[..j];
    hide RegisterBank.Run;
  }

  /** The whole story of a takeover. In every run from power-up, for any traffic of a bus master
      that holds its accesses: when `boot_en` rises, PROGRAM_B has been held low for the 100
      cycles before, and they began with the pulse of a complete magic sequence or with the
      flash's no-bitstream pulse. */
  lemma TakeOver(s: State, ins: seq<In>, i: In)
    requires AfterReset(s) && OutOfReset(ins) && i.bus.rstN && RegisterBank.Holds(s.bank, BusIns(ins))
    requires !Run(s, ins).own.bootEn && Next(Run(s, ins), i).own.bootEn
    ensures |ins| >= BusOwnership.ERASE_CYCLES
    ensures var m := |ins| - BusOwnership.ERASE_CYCLES;
      && BusOwnership.ErasePulse(OwnIns(s, ins), m)
      && (EndsInMagic(TriggerWrites(s, ins[..m])) || Run(s, ins[..m]).boot.fb.noBitstreamP1)
  {
    hide AfterReset, OutOfReset, Run, Next, RegisterBank.Holds, EndsInMagic, TriggerWrites, BusIns, OwnIns;
    RiseTriggered(s, ins, i);
    var m := |ins| - BusOwnership.ERASE_CYCLES;
    PrefixTo(s, ins, m);
    if Run(s, ins[..m]).det.pulse {
      PulseMeansMagic(s, ins[..m]);
    }
  }

  lemma RiseTriggered(s: State, ins: seq<In>, i: In)
    requires AfterReset(s) && OutOfReset(ins) && i.bus.rstN
    requires !Run(s, ins).own.bootEn && Next(Run(s, ins), i).own.bootEn
    ensures |ins| >= BusOwnership.ERASE_CYCLES
    ensures var m := |ins| - BusOwnership.ERASE_CYCLES;
      && BusOwnership.ErasePulse(OwnIns(s, ins), m)
      && (Run(s, ins[..m]).det.pulse || Run(s, ins[..m]).boot.fb.noBitstreamP1)
  {
    hide Run, AfterReset, OutOfReset, OwnIns, Next, BusOwnership.Run, BusOwnership.Next, BusOwnership.OutOfReset;
    OwnView(s, ins, i);
    BusOutOfReset(s, ins);
    BusOwnership.BootEnRises(OwnIns(s, ins), OwnIn(Run(s, ins), i));
    InputAt(s, ins, |ins| - BusOwnership.ERASE_CYCLES);
  }

  lemma OwnView(s: State, ins: seq<In>, i: In)
    requires AfterReset(s)
    ensures Run(s, ins).own == BusOwnership.Run(BusOwnership.POWER_UP, OwnIns(s, ins))
    ensures Next(Run(s, ins), i).own == BusOwnership.Next(Run(s, ins).own, OwnIn(Run(s, ins), i))
  {
    Components(s, ins);
  }

  /** In cycle `k` the host writes CSR with EXIT, and the bank accepts the write. */
  predicate ExitWritten(s: State, ins: seq<In>, k: nat) {
    k < |ins| && RegisterBank.Asks(RegisterBank.ExitPulse, Run(s, ins[..k]).bank, ins[k].bus)
  }

  /** The bus controller sees EXIT exactly two cycles after an accepted CSR write with that bit. */
  lemma ExitSeen(s: State, ins: seq<In>, m: nat)
    requires AfterReset(s) && OutOfReset(ins) && m < |ins|
    ensures OwnIns(s, ins)[m].exit <==> m >= 2 && ExitWritten(s, ins, m - 2)
  {
    hide Next, OwnIns, BusIns, DetIns, BootIns, RegisterBank.Next, RegisterBank.Orderly, RegisterBank.Asks;
    InputAt(s, ins, m);
    if m < 2 {
      assert ins[..0] == [] && (m == 1 ==> ins[..1][..0] == []);
      RegisterBank.ResetQuiet(s.bank.r.fifoIn, RegisterBank.ExitPulse, ins[0].bus);
      BankStep(s, ins[0]);
    } else {
      var before := ins[..m - 2];
      BankOrderly(s, before);
      assert ins[..m][..m - 1] == ins[..m - 1] && ins[..m - 1][..m - 2] == before;
      BankStep(Run(s, before), ins[m - 2]);
      BankStep(Run(s, ins[..m - 1]), ins[m - 1]);
      RegisterBank.PulseTwoLater(RegisterBank.ExitPulse, Run(s, before).bank, ins[m - 2].bus, ins[m - 1].bus);
    }
  }

  lemma BankStep(s: State, i: In)
    ensures Next(s, i).bank == RegisterBank.Next(s.bank, i.bus)
  {
  }

  lemma BankOrderly(s: State, ins: seq<In>)
    requires AfterReset(s)
    ensures RegisterBank.Orderly(Run(s, ins).bank)
  {
    hide AfterReset, RegisterBank.Orderly, RegisterBank.Run, Run, BusIns, DetIns, BootIns, OwnIns;
    BankAtReset(s);
    Components(s, ins);
    RegisterBank.RunOrderly(s.bank, BusIns(ins));
  }

  /** An accepted CSR write with EXIT whose pulse, two cycles later, is still pending. */
  predicate ExitInForce(s: State, ins: seq<In>, k: nat) {
    ExitWritten(s, ins, k) && BusOwnership.ExitPending(OwnIns(s, ins), k + 2)
  }

  /** How the bus is handed back. In every run from power-up `boot_en` falls exactly when an
      accepted CSR write with EXIT is in force, the VME interface is idle, no further EXIT pulse
      is out and no erase pulse ends. */
  lemma HandBack(s: State, ins: seq<In>, i: In)
    requires AfterReset(s) && OutOfReset(ins) && i.bus.rstN && Run(s, ins).own.bootEn
    ensures var t := Run(s, ins);
      !Next(t, i).own.bootEn <==>
        && i.idle && !t.bank.r.exit.pulse && !BusOwnership.Erased(t.own, OwnIn(t, i))
        && exists k: nat :: ExitInForce(s, ins, k)
  {
    hide Run, AfterReset, OutOfReset, OwnIns, Next, BusOwnership.Run, BusOwnership.Next, BusOwnership.OutOfReset;
    hide ExitInForce, BusOwnership.Erased;
    OwnView(s, ins, i);
    BusOutOfReset(s, ins);
    BusOwnership.BootEnFalls(OwnIns(s, ins), OwnIn(Run(s, ins), i));
    PendingInForce(s, ins);
  }

  lemma PendingInForce(s: State, ins: seq<In>)
    requires AfterReset(s) && OutOfReset(ins)
    ensures (exists m: nat :: BusOwnership.ExitPending(OwnIns(s, ins), m)) <==> exists k: nat :: ExitInForce(s, ins, k)
  {
    hide Run, AfterReset, OutOfReset, OwnIns, ExitWritten;
    if m: nat :| BusOwnership.ExitPending(OwnIns(s, ins), m) {
      ExitSeen(s, ins, m);
      assert BusOwnership.ExitPending(OwnIns(s, ins), m - 2 + 2);
      assert ExitInForce(s, ins, m - 2);
    }
    if k: nat :| ExitInForce(s, ins, k) {
      assert BusOwnership.ExitPending(OwnIns(s, ins), k + 2);
    }
  }

  /** A trigger is out: the magic sequence is complete, or the flash holds no bitstream. */
  predicate TriggerOut(s: State) { s.det.pulse || s.boot.fb.noBitstreamP1 }

  /** Every trigger that is not repeated within 100 cycles lets the bootloader onto the bus. */
  lemma TriggerTakesOver(s: State, ins: seq<In>, m: nat)
    requires AfterReset(s) && OutOfReset(ins) && m + BusOwnership.ERASE_CYCLES < |ins|
    requires TriggerOut(Run(s, ins[..m]))
    requires forall j :: m < j <= m + BusOwnership.ERASE_CYCLES ==> !TriggerOut(Run(s, ins[..j]))
    ensures Run(s, ins[..m + BusOwnership.ERASE_CYCLES + 1]).own.bootEn
  {
    hide Run, OutOfReset, OwnIns, TriggerOut, BusOwnership.Run, BusOwnership.OutOfReset;
    var n := m + BusOwnership.ERASE_CYCLES + 1;
    var os := OwnIns(s, ins);
    forall j | m <= j < n
      ensures os[j].trigger <==> TriggerOut(Run(s, ins[..j]))
    {
      InputAt(s, ins, j);
      TriggerSeen(Run(s, ins[..j]), ins[j]);
    }
    BusOutOfReset(s, ins);
    BusOwnership.TriggerEnables(os, m);
    OwnInsPrefix(s, ins, n);
    OwnRun(s, ins[..n]);
  }

  lemma TriggerSeen(s: State, i: In)
    ensures OwnIn(s, i).trigger <==> TriggerOut(s)
  {
  }

  lemma OwnRun(s: State, ins: seq<In>)
    requires AfterReset(s)
    ensures Run(s, ins).own == BusOwnership.Run(BusOwnership.POWER_UP, OwnIns(s, ins))
  {
    Components(s, ins);
  }

  lemma {:induction false} OwnInsPrefix(s: State, ins: seq<In>, n: nat)
    requires n <= |ins|
    ensures OwnIns(s, ins)[..n] == OwnIns(s, ins[..n])
  {
    hide Run, OwnIn;
    if n < |ins| {
      var before := ins[..|ins| - 1];
      OwnInsPrefix(s, before, n);
      assert before[..n] == ins[..n] && OwnIns(s, ins)[..|before|] == OwnIns(s, before);
      assert OwnIns(s, ins)[..n] == OwnIns(s, before)[..n];
    } else {
      assert ins[..n] == ins;
    }
  }

  lemma HostSelected(s: State, ins: seq<In>)
    requires AfterReset(s) && OutOfReset(ins) && Run(s, ins).boot.source.Host?
    ensures ins != []
    ensures var t := Run(s, ins[..|ins| - 1]); t.boot.source.Host? || t.det.pulse
  {
    hide RegisterBank.Next, BootTrigger.Next, BusOwnership.Next;
  }

  /** The loader is the host's only after a complete magic sequence. */
  lemma {:induction false} HostOnlyAfterMagic(s: State, ins: seq<In>)
    requires AfterReset(s) && OutOfReset(ins) && RegisterBank.Holds(s.bank, BusIns(ins))
    requires Run(s, ins).boot.source.Host?
    ensures exists k :: 0 <= k < |ins| && EndsInMagic(TriggerWrites(s, ins[..k]))
  {
    hide *;
    HostSelected(s, ins);
    PrefixTo(s, ins, |ins| - 1);
    var before := ins[..|ins| - 1];
    if Run(s, before).boot.source.Host? {
      HostOnlyAfterMagic(s, before);
      var k :| 0 <= k < |before| && EndsInMagic(TriggerWrites(s, before[..k]));
      assert before[..k] == ins[..k];
    } else {
      PulseMeansMagic(s, before);
    }
  }

  lemma PrefixTo(s: State, ins: seq<In>, m: nat)
    requires m < |ins| && OutOfReset(ins) && RegisterBank.Holds(s.bank, BusIns(ins))
    ensures OutOfReset(ins[..m]) && RegisterBank.Holds(s.bank, BusIns(ins[..m]))
  {
    InputAt(s, ins, m);
    HoldsPrefix(s.bank, BusIns(ins), m);
  }

  // ---- the host's two views of the bank ----

  /** What the driver writes to wake the bootloader, after the trigger bytes `g` of whoever
      wrote before it: it succeeds exactly when the detector was at its start. */
  lemma UnlockExactly(g: seq<Byte>)
    ensures BootTrigger.Fires(g + Driver.UNLOCK) <==> BootTrigger.AtStart(g)
  {
    assert Driver.UNLOCK == BootTrigger.MAGIC;
    BootTrigger.FiresExactly(g);
  }

  /** The FIFO writes among the accepted accesses, as atomic host actions. */
  function Atomic(ws: seq<RegisterBank.Write>): seq<HostPath.Action> {
    if ws == [] then []
    else
      var w := ws[|ws| - 1];
      Atomic(ws[..|ws| - 1]) +
        if w.adr == RegisterBank.FIFO_R0 then [HostPath.WriteR0(w.dat[3] % 4, RegisterBank.Bit(w.dat, 2))]
        else if w.adr == RegisterBank.FIFO_R1 then [HostPath.WriteR1(w.dat)]
        else []
  }

  function Entries(fs: seq<RegisterBank.FifoIn>): (es: seq<HostPath.Entry>)
    ensures |es| == |fs|
  {
    seq(|fs|, j requires 0 <= j < |fs| => HostPath.Entry(fs[j].data, fs[j].size, fs[j].last))
  }

  /** Atomic register writes are a faithful view of the bank: what reaches the FIFO in a bus run
      is what the atomic actions ask for. */
  lemma AtomicAccess(s: RegisterBank.State, ins: seq<RegisterBank.In>)
    requires RegisterBank.Orderly(s)
    ensures Entries(RegisterBank.Pushed(s, ins)) ==
      HostPath.Pushes(Atomic(RegisterBank.Writes(s, ins)), s.r.fifoIn.size, s.r.fifoIn.last)
  {
    RegisterBank.PushesPaired(s, ins);
    AtomicView(s.r.fifoIn, RegisterBank.Writes(s, ins));
  }

  lemma {:induction false} AtomicView(f: RegisterBank.FifoIn, ws: seq<RegisterBank.Write>)
    ensures var (g, pushed) := RegisterBank.HostView(f, ws);
      && Entries(pushed) == HostPath.Pushes(Atomic(ws), f.size, f.last)
      && HostPath.R0After(Atomic(ws), f.size, f.last) == (g.size, g.last)
  {
    if ws != [] {
      var before, w := ws[..|ws| - 1], ws[|ws| - 1];
      AtomicView(f, before);
      var acts := Atomic(before);
      hide RegisterBank.Bit;
      if w.adr == RegisterBank.FIFO_R0 {
        var a := HostPath.WriteR0(w.dat[3] % 4, RegisterBank.Bit(w.dat, 2));
        HostPath.PushesSnoc(acts, a, f.size, f.last);
        assert (acts + [a])[..|acts|] == acts;
      } else if w.adr == RegisterBank.FIFO_R1 {
        HostPath.PushesSnoc(acts, HostPath.WriteR1(w.dat), f.size, f.last);
        assert (acts + [HostPath.WriteR1(w.dat)])[..|acts|] == acts;
      } else {
        assert acts + [] == acts;
      }
    }
  }

  // ---- register layout ----

  /** The words the host software writes, as the register headers define their fields. */
  function CsrWord(c: HostPath.Csr): Word {
    var low: int := (if c.start then 1 else 0) + (if c.msbf then 16 else 0)
      + (if c.swrst then 32 else 0) + (if c.exit then 64 else 0);
    var divider: int := c.clkDiv;
    [0, 0, divider, low]
  }

  function FarWord(data: Byte, xfer: bool, cs: bool): Word {
    [0, 0, (if xfer then 1 else 0) + (if cs then 4 else 0), data]
  }

  lemma WordBit(w: Word, n: nat)
    requires n < 16
    ensures RegisterBank.Bit(w, n) <==> BitsN(w[3 - n / 8], 8)[7 - n % 8]
  {
    hide Bits, BitsN;
    BitsConcat(w[..2], w[2..]);
    BitsFirst(w[2..]);
    BitsFirst(w[3..]);
    assert w == w[..2] + w[2..] && w[2..][0] == w[2] && w[2..][1..] == w[3..] && w[3..][0] == w[3];
    assert Bits(w)[31 - n] == Bits(w[2..])[15 - n];
  }

  /** Writing a command word gives the bank exactly the command's fields. */
  lemma CsrFields(r: RegisterBank.Regs, c: HostPath.Csr)
    ensures var w := RegisterBank.Written(r, RegisterBank.CSR, CsrWord(c));
      HostPath.Csr(w.start.bit, w.msbf, w.swrst.bit, w.exit.bit, w.clkdiv) == c
  {
    hide BitsN, RegisterBank.Bit;
    var w := CsrWord(c);
    WordBit(w, 0);
    WordBit(w, 4);
    WordBit(w, 5);
    WordBit(w, 6);
    BitsOfByte(w[3]);
  }

  lemma FarFields(r: RegisterBank.Regs, data: Byte, xfer: bool, cs: bool)
    ensures var w := RegisterBank.Written(r, RegisterBank.FAR, FarWord(data, xfer, cs));
      w.farLoad && w.farXfer == xfer && w.farCs == cs
  {
    var w := FarWord(data, xfer, cs);
    WordBit(w, 8);
    WordBit(w, 10);
    BitsOfByte(w[2]);
    hide BitsN, RegisterBank.Bit;
  }

  /** The driver's R0 word. */
  lemma SizeFields(r: RegisterBank.Regs, size: int, isLast: bool)
    requires 1 <= size <= 4
    ensures var w := RegisterBank.Written(r, RegisterBank.FIFO_R0, [0, 0, 0, Driver.R0Value(size, isLast)]);
      w.fifoIn.size == size - 1 && w.fifoIn.last == isLast
  {
    var w: Word := [0, 0, 0, Driver.R0Value(size, isLast)];
    WordBit(w, 2);
    BitsOfByte(w[3]);
    hide BitsN, RegisterBank.Bit;
  }
}
