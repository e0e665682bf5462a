/** Which side feeds the loader: the flash after a reset, the host once it has been triggered. */
module BootSource {
  import opened Bytes
  import FlashBoot

  datatype Source = Flash | Host

  /** The selector and the boot machine it enables. */
  datatype State = State(source: Source, fb: FlashBoot.State)

  /** `rd` and `done` are the loader's; they reach the boot machine only while it is selected. */
  datatype In = In(rstN: bool, trigger: bool, ready: bool, flashData: Byte, rd: bool, done: bool)

  /** `p_select_boot_mode`. */
  function NextSource(source: Source, rstN: bool, trigger: bool): Source {
    if !rstN then Flash else if trigger then Host else source
  }

  function BootIn(s: State, i: In): FlashBoot.In {
    FlashBoot.In(i.rstN, s.source.Flash?, i.ready, i.flashData, i.rd && s.source.Flash?, i.done && s.source.Flash?)
  }

  function Next(s: State, i: In): State {
    State(NextSource(s.source, i.rstN, i.trigger), FlashBoot.Next(s.fb, BootIn(s, i)))
  }

  class Selector {
    var source: Source

    constructor ()
      ensures source.Flash?
    {
      source := Flash;
    }

    method Step(rstN: bool, trigger: bool)
      modifies this
      ensures source == NextSource(old(source), rstN, trigger)
    {
      if !rstN {
        source := Flash;
      } else if trigger {
        source := Host;
      }
    }
  }

  function Run(s: State, ins: seq<In>): State {
    if ins == [] then s else Next(Run(s, ins[..|ins| - 1]), ins[|ins| - 1])
  }

  predicate OutOfReset(ins: seq<In>) { forall j :: 0 <= j < |ins| ==> ins[j].rstN }

  /** Cycles in which the no-bitstream pulse is out. */
  function Pulses(s: State, ins: seq<In>): nat {
    if ins == [] then 0
    else Pulses(s, ins[..|ins| - 1]) + if Run(s, ins).fb.noBitstreamP1 then 1 else 0
  }

  predicate AfterReset(s: State) {
    s.source.Flash? && s.fb.fsm.Startup? && !s.fb.noBitstream && !s.fb.noBitstreamD0 && !s.fb.noBitstreamP1
  }

  /** One cycle of reset, from any state, selects the flash and restarts the boot machine. */
  lemma ResetSelectsFlash(s: State, i: In)
    requires !i.rstN
    ensures AfterReset(Next(s, i)) && !Next(s, i).fb.start && Next(s, i).fb.empty
  {
  }

  /** `n` pulses so far: one more only if it is already due, or if the flash is still selected
      and nothing has been reported yet. */
  predicate Reported(s: State, n: nat) {
    && n + (if s.fb.noBitstream && !s.fb.noBitstreamD0 then 1 else 0) <= 1
    && (s.source.Flash? && !s.fb.noBitstream ==> n == 0)
    && (s.source.Flash? && s.fb.noBitstream ==> s.fb.fsm.NoBitstream?)
  }

  lemma ReportStep(s: State, i: In, n: nat)
    requires i.rstN && Reported(s, n)
    ensures Reported(Next(s, i), n + if Next(s, i).fb.noBitstreamP1 then 1 else 0)
  {
    FlashBoot.ReportMoves(s.fb, BootIn(s, i));
    hide FlashBoot.Next;
  }

  /** And giving up is reported, two cycles later. */
  lemma GivingUpReports(s: State, i: In, j: In)
    requires s.source.Flash? && s.fb.fsm.NoBitstream? && !s.fb.noBitstream && !s.fb.noBitstreamD0 && i.rstN && j.rstN
    ensures Next(Next(s, i), j).fb.noBitstreamP1
  {
    FlashBoot.ReportMoves(s.fb, BootIn(s, i));
    FlashBoot.ReportMoves(Next(s, i).fb, BootIn(Next(s, i), j));
    hide FlashBoot.Next;
  }

  /** At most one no-bitstream pulse per reset, whatever the flash, the loader and the trigger
      do, because the host, once selected, stays selected. */
  lemma {:induction false} OnePulse(s: State, ins: seq<In>)
    requires AfterReset(s) && OutOfReset(ins)
    ensures Reported(Run(s, ins), Pulses(s, ins)) && Pulses(s, ins) <= 1
    ensures (exists j :: 0 <= j < |ins| && ins[j].trigger) <==> Run(s, ins).source.Host?
  {
    if ins != [] {
      var before, i := ins[..|ins| - 1], ins[|ins| - 1];
      OnePulse(s, before);
      ReportStep(Run(s, before), i, Pulses(s, before));
      hide Reported, FlashBoot.Next;
      assert forall j :: 0 <= j < |before| ==> before[j] == ins[j];
      SourceSticky(s, ins);
    }
  }

  lemma SourceSticky(s: State, ins: seq<In>)
    requires ins != [] && OutOfReset(ins)
    ensures Run(s, ins).source ==
      if ins[|ins| - 1].trigger then Host else Run(s, ins[..|ins| - 1]).source
  {
  }
}
