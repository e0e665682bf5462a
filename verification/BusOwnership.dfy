/** Who drives the VME bus: the controller that lets the bootloader in after the Application
    FPGA has been erased, and out again after EXIT. */
module BusOwnership {
  /** `extend` counts what is left of the 100-cycle erase pulse. */
  datatype State = State(bootEn: bool, goPassive: bool, erasingD0: bool, extend: nat)

  /** The trigger and EXIT pulses, and whether the VME interface is idle. */
  datatype In = In(rstN: bool, trigger: bool, exit: bool, idle: bool)

  const ERASE_CYCLES: nat := 100

  /** The extended erase pulse: from the trigger's own cycle on, for 100 cycles, retriggerable. */
  predicate Erasing(s: State, i: In) { i.trigger || s.extend > 0 }

  function NextExtend(s: State, i: In): nat {
    if !i.rstN then 0 else if i.trigger then ERASE_CYCLES - 1 else if s.extend > 0 then s.extend - 1 else 0
  }

  predicate Erased(s: State, i: In) { !Erasing(s, i) && s.erasingD0 }

  function Next(s: State, i: In): State {
    if !i.rstN then State(false, false, s.erasingD0, NextExtend(s, i))
    else if Erased(s, i) then State(true, false, false, NextExtend(s, i))
    else if i.exit then State(s.bootEn, true, Erasing(s, i), NextExtend(s, i))
    else if s.goPassive && i.idle then State(false, false, Erasing(s, i), NextExtend(s, i))
    else State(s.bootEn, s.goPassive, Erasing(s, i), NextExtend(s, i))
  }

  class Controller {
    var regs: State

    constructor (init: State)
      ensures regs == init
    {
      regs := init;
    }

    method Step(i: In)
      modifies this
      ensures regs == Next(old(regs), i)
    {
      var next := regs;
      var erasing := i.trigger || regs.extend > 0;
      if !i.rstN {
        next := next.(bootEn := false, goPassive := false);
      } else {
        next := next.(erasingD0 := erasing);
        if !erasing && regs.erasingD0 {
          next := next.(bootEn := true, goPassive := false);
        } else if i.exit {
          next := next.(goPassive := true);
        } else if regs.goPassive && i.idle {
          next := next.(goPassive := false, bootEn := false);
        }
      }
      var left := ExtendPulse(i);
      regs := next.(extend := left);
    }

    method ExtendPulse(i: In) returns (left: nat)
      ensures left == NextExtend(regs, i)
    {
      left := regs.extend;
      if !i.rstN {
        left := 0;
      } else if i.trigger {
        left := ERASE_CYCLES - 1;
      } else if left > 0 {
        left := left - 1;
      }
    }
  }

  // ---- the pins ----

  /** `boot_config_o`: PROGRAM_B is low while the erase pulse lasts, whatever the loader drives. */
  predicate ProgramB(s: State, i: In, loaderProgramB: bool) { loaderProgramB && !Erasing(s, i) }

  /** A tristate output. */
  datatype Pin<T> = Z | Drive(value: T)

  /** What the VME interface wants to drive. */
  datatype Vme = Vme(dtackN: bool, dtackOe: bool, dataDir: bool, dataOeN: bool, data: int)

  datatype Outputs = Outputs(
    dtackN: Pin<bool>, dtackOe: Pin<bool>, dataDir: Pin<bool>, dataOeN: Pin<bool>,
    data: Pin<int>, addrOeN: Pin<bool>, addrDir: Pin<bool>)

  function Gate<T>(passive: bool, value: T): Pin<T> { if passive then Z else Drive(value) }

  function VmeOutputs(s: State, v: Vme): Outputs {
    var passive := !s.bootEn;
    Outputs(Gate(passive, v.dtackN), Gate(passive, v.dtackOe), Gate(passive, v.dataDir), Gate(passive, v.dataOeN),
            Gate(passive || v.dataOeN || !v.dataDir, v.data), Gate(passive, false), Gate(passive, false))
  }

  predicate Drives(o: Outputs) {
    || o.dtackN.Drive? || o.dtackOe.Drive? || o.dataDir.Drive? || o.dataOeN.Drive? || o.data.Drive?
    || o.addrOeN.Drive? || o.addrDir.Drive?
  }

  // ---- runs ----

  function Run(s: State, ins: seq<In>): State {
    if ins == [] then s else Next(Run(s, ins[..|ins| - 1]), ins[|ins| - 1])
  }

  predicate OutOfReset(ins: seq<In>) { forall j :: 0 <= j < |ins| ==> ins[j].rstN }

  const POWER_UP: State := State(false, false, false, 0)

  /** The erase pulse is on in cycle `k` of the run. */
  predicate ErasingAt(ins: seq<In>, k: nat)
    requires k < |ins|
  {
    Erasing(Run(POWER_UP, ins[..k]), ins[k])
  }

  /** A trigger in cycle `m` and the 100 cycles of its erase pulse. */
  predicate ErasePulse(ins: seq<In>, m: nat) {
    && m + ERASE_CYCLES <= |ins| && ins[m].trigger
    && forall k: nat :: m <= k < m + ERASE_CYCLES ==> ErasingAt(ins, k)
  }

  /** A trigger in cycle `m` keeps the erase pulse on for at least 100 cycles. */
  lemma {:induction false} TriggerErases(ins: seq<In>, m: nat, k: nat)
    requires OutOfReset(ins) && m <= k < |ins| && k < m + ERASE_CYCLES && ins[m].trigger
    ensures ErasingAt(ins, k)
    ensures k > m ==> Run(POWER_UP, ins[..k]).extend >= m + ERASE_CYCLES - k
    decreases k
  {
    if k > m {
      TriggerErases(ins, m, k - 1);
      assert ins[..k][..k - 1] == ins[..k - 1];
    }
  }

  /** Throughout an erase pulse PROGRAM_B is low, whatever the loader drives. */
  lemma ProgramBLow(ins: seq<In>, m: nat, k: nat, loaderProgramB: bool)
    requires ErasePulse(ins, m) && m <= k < m + ERASE_CYCLES
    ensures !ProgramB(Run(POWER_UP, ins[..k]), ins[k], loaderProgramB)
  {
    assert ErasingAt(ins, k);
  }

  /** The latest trigger came `n` cycles before the end of the run. */
  predicate Triggered(ins: seq<In>, n: nat) { 0 < n <= |ins| && ins[|ins| - n].trigger }

  /** The counter and the delayed sample say how long ago the latest trigger was. */
  lemma {:induction false} ExtendCounts(ins: seq<In>)
    requires OutOfReset(ins)
    ensures var s := Run(POWER_UP, ins);
      && s.extend < ERASE_CYCLES
      && (s.extend > 0 ==> s.erasingD0 && Triggered(ins, ERASE_CYCLES - s.extend))
      && (s.extend == 0 && s.erasingD0 ==> Triggered(ins, ERASE_CYCLES))
  {
    if ins != [] {
      ExtendCounts(ins[..|ins| - 1]);
    }
  }

  /** An EXIT command that no end of an erase pulse has cancelled, and no idle cycle has used up. */
  predicate ExitPending(ins: seq<In>, m: nat) {
    && m < |ins| && ins[m].exit
    && (forall k: nat :: m <= k < |ins| ==> !Erased(Run(POWER_UP, ins[..k]), ins[k]))
    && (forall k: nat :: m < k < |ins| ==> ins[k].exit || !ins[k].idle)
  }

  /** The register remembers exactly that. */
  lemma {:induction false} PassiveExactly(ins: seq<In>)
    requires OutOfReset(ins)
    ensures Run(POWER_UP, ins).goPassive <==> exists m: nat :: ExitPending(ins, m)
  {
    if ins != [] {
      hide Run, Erased, ExitPending;
      var n := |ins| - 1;
      PassiveExactly(ins[..n]);
      PassiveStep(ins);
      if exists m: nat :: ExitPending(ins, m) {
        var m: nat :| ExitPending(ins, m);
        PendingStep(ins, m);
      }
      if exists m: nat :: ExitPending(ins[..n], m) {
        var m: nat :| ExitPending(ins[..n], m);
        PendingStep(ins, m);
      }
      PendingStep(ins, n);
    }
  }

  lemma PassiveStep(ins: seq<In>)
    requires OutOfReset(ins) && ins != []
    ensures var n := |ins| - 1; var s := Run(POWER_UP, ins[..n]);
      Run(POWER_UP, ins).goPassive <==> !Erased(s, ins[n]) && (ins[n].exit || (s.goPassive && !ins[n].idle))
  {
    hide Erased;
  }

  lemma PendingStep(ins: seq<In>, m: nat)
    requires ins != [] && m < |ins|
    ensures var n := |ins| - 1;
      ExitPending(ins, m) <==>
        && !Erased(Run(POWER_UP, ins[..n]), ins[n])
        && if m == n then ins[n].exit else ExitPending(ins[..n], m) && (ins[n].exit || !ins[n].idle)
  {
    hide Run, Erased;
    var n := |ins| - 1;
    assert forall k :: 0 <= k < n ==> ins[..n][..k] == ins[..k];
    if m < n && ExitPending(ins[..n], m) {
      forall k: nat | m <= k < n
        ensures !Erased(Run(POWER_UP, ins[..k]), ins[k])
      {
        assert !Erased(Run(POWER_UP, ins[..n][..k]), ins[..n][k]);
      }
    }
  }

  /** In every run from power-up: `boot_en` rises exactly when an erase pulse has just ended,
      and that pulse began with a trigger 100 cycles earlier and held PROGRAM_B low since. */
  lemma BootEnRises(ins: seq<In>, i: In)
    requires OutOfReset(ins) && i.rstN && !Run(POWER_UP, ins).bootEn
    ensures var s := Run(POWER_UP, ins);
      Next(s, i).bootEn <==> s.erasingD0 && s.extend == 0 && !i.trigger
    ensures Next(Run(POWER_UP, ins), i).bootEn ==> |ins| >= ERASE_CYCLES && ErasePulse(ins, |ins| - ERASE_CYCLES)
  {
    ExtendCounts(ins);
    if Next(Run(POWER_UP, ins), i).bootEn {
      var m := |ins| - ERASE_CYCLES;
      forall k: nat | m <= k < m + ERASE_CYCLES
        ensures ErasingAt(ins, k)
      {
        TriggerErases(ins, m, k);
      }
    }
  }

  /** The counter of an erase pulse that is not triggered again. */
  lemma {:induction false} TriggerCounts(ins: seq<In>, m: nat, k: nat)
    requires OutOfReset(ins) && m < k <= |ins| && k <= m + ERASE_CYCLES && ins[m].trigger
    requires forall j :: m < j < k ==> !ins[j].trigger
    ensures var s := Run(POWER_UP, ins[..k]); s.erasingD0 && s.extend == m + ERASE_CYCLES - k
    decreases k
  {
    assert ins[..k][..k - 1] == ins[..k - 1];
    if k > m + 1 {
      TriggerCounts(ins, m, k - 1);
    }
  }

  /** Conversely every trigger that is not repeated within 100 cycles lets the bootloader onto the
      bus right after them. */
  lemma TriggerEnables(ins: seq<In>, m: nat)
    requires OutOfReset(ins) && m + ERASE_CYCLES < |ins| && ins[m].trigger
    requires forall j :: m < j <= m + ERASE_CYCLES ==> !ins[j].trigger
    ensures Run(POWER_UP, ins[..m + ERASE_CYCLES + 1]).bootEn
  {
    var k := m + ERASE_CYCLES;
    TriggerCounts(ins, m, k);
    assert ins[..k + 1][..k] == ins[..k];
  }

  /** `boot_en` falls exactly when an EXIT is pending, the VME interface is idle, and neither an
      erase pulse ends nor another EXIT comes in that cycle. */
  lemma BootEnFalls(ins: seq<In>, i: In)
    requires OutOfReset(ins) && i.rstN && Run(POWER_UP, ins).bootEn
    ensures var s := Run(POWER_UP, ins);
      !Next(s, i).bootEn <==> (exists m: nat :: ExitPending(ins, m)) && i.idle && !i.exit && !Erased(s, i)
  {
    PassiveExactly(ins);
    hide Run, Erased, ExitPending;
  }

  /** Some erase pulse is over. */
  predicate ErasedBefore(ins: seq<In>, m: nat) {
    m + ERASE_CYCLES < |ins| && ErasePulse(ins[..m + ERASE_CYCLES], m)
  }

  /** Nothing is driven onto the VME bus before the Application FPGA has been erased. */
  lemma {:induction false} DrivesOnlyAfterErase(ins: seq<In>, v: Vme)
    requires OutOfReset(ins) && Drives(VmeOutputs(Run(POWER_UP, ins), v))
    ensures exists m: nat :: ErasedBefore(ins, m)
  {
    var before, n := ins[..|ins| - 1], |ins| - 1;
    if Run(POWER_UP, before).bootEn {
      DrivesOnlyAfterErase(before, v);
      var m: nat :| ErasedBefore(before, m);
      assert before[..m + ERASE_CYCLES] == ins[..m + ERASE_CYCLES];
      assert ErasedBefore(ins, m);
    } else {
      BootEnRises(before, ins[n]);
      assert ins[..n - ERASE_CYCLES + ERASE_CYCLES] == before;
      assert ErasedBefore(ins, n - ERASE_CYCLES);
    }
  }

  /** A data byte is driven exactly while the bootloader owns the bus and the interface enables
      its buffers towards the bus. */
  lemma DataDriven(s: State, v: Vme)
    ensures VmeOutputs(s, v).data == if s.bootEn && !v.dataOeN && v.dataDir then Drive(v.data) else Z
    ensures Drives(VmeOutputs(s, v)) <==> s.bootEn
  {
  }

  /** The delayed sample is not reset. After a reset the first cycle without a trigger lets the
      bootloader onto the bus exactly when the sample was 1 as the reset began, that is when the
      reset cut an erase pulse short. */
  lemma {:induction false} ResetDuringErase(s: State, resets: seq<In>, i: In)
    requires resets != [] && (forall j :: 0 <= j < |resets| ==> !resets[j].rstN)
    requires i.rstN && !i.trigger
    ensures Next(Run(s, resets), i).bootEn <==> s.erasingD0
    ensures var t := Run(s, resets); !t.bootEn && !t.goPassive && t.extend == 0 && t.erasingD0 == s.erasingD0
  {
    if |resets| > 1 {
      ResetDuringErase(s, resets[..|resets| - 1], i);
    } else {
      assert Run(s, resets[..0]) == s;
    }
  }
}
