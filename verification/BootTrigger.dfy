/** The detector of the magic sequence that hands the boot over to the host. */
module BootTrigger {
  import opened Bytes

  const MAGIC: seq<Byte> := [0xDE, 0xAD, 0xBE, 0xEF, 0xCA, 0xFE, 0xBA, 0xBE]

  datatype BootState = Tword0 | Tword1 | Tword2 | Tword3 | Tword4 | Tword5 | Tword6 | Tword7 | BootReady

  datatype State = State(st: BootState, pulse: bool)

  datatype In = In(rstN: bool, wr: bool, data: Byte)

  /** `f_bootseq_step`: on a write, advance if it matches, or start over. */
  function SeqStep(st: BootState, next: BootState, match_: Byte, i: In): BootState {
    if i.wr then if i.data == match_ then next else Tword0 else st
  }

  function NextState(st: BootState, i: In): BootState {
    match st
    case Tword0 => SeqStep(st, Tword1, 0xDE, i)
    case Tword1 => SeqStep(st, Tword2, 0xAD, i)
    case Tword2 => SeqStep(st, Tword3, 0xBE, i)
    case Tword3 => SeqStep(st, Tword4, 0xEF, i)
    case Tword4 => SeqStep(st, Tword5, 0xCA, i)
    case Tword5 => SeqStep(st, Tword6, 0xFE, i)
    case Tword6 => SeqStep(st, Tword7, 0xBA, i)
    case Tword7 => SeqStep(st, BootReady, 0xBE, i)
    case BootReady => Tword0
  }

  function Next(s: State, i: In): State {
    if !i.rstN then State(Tword0, false)
    else State(NextState(s.st, i), s.st.BootReady? || (s.pulse && !s.st.Tword0?))
  }

  class Detector {
    var regs: State

    constructor (init: State)
      ensures regs == init
    {
      regs := init;
    }

    method Step(i: In)
      modifies this
      ensures regs == Next(old(regs), i)
    {
      if !i.rstN {
        regs := State(Tword0, false);
        return;
      }
      var next := regs;
      match regs.st {
        case Tword0 =>
          next := next.(pulse := false);
          next := next.(st := Compare(i, Tword1, 0xDE));
        case Tword1 => next := next.(st := Compare(i, Tword2, 0xAD));
        case Tword2 => next := next.(st := Compare(i, Tword3, 0xBE));
        case Tword3 => next := next.(st := Compare(i, Tword4, 0xEF));
        case Tword4 => next := next.(st := Compare(i, Tword5, 0xCA));
        case Tword5 => next := next.(st := Compare(i, Tword6, 0xFE));
        case Tword6 => next := next.(st := Compare(i, Tword7, 0xBA));
        case Tword7 => next := next.(st := Compare(i, BootReady, 0xBE));
        case BootReady =>
          next := next.(pulse := true);
          next := next.(st := Tword0);
      }
      regs := next;
    }

    function Compare(i: In, next: BootState, matching: Byte): BootState
      reads this
    {
      if i.wr then if i.data == matching then next else Tword0 else regs.st
    }
  }

  // ---- the recogniser on byte strings ----

  /** How much of the magic sequence the detector has matched after these writes. */
  function Matched(ws: seq<Byte>): (k: nat)
    ensures k <= 8 && k <= |ws| && ws[|ws| - k..] == MAGIC[..k]
  {
    if ws == [] then 0
    else
      var j := Matched(ws[..|ws| - 1]);
      var k := if j == 8 then 0 else j;
      var r := if ws[|ws| - 1] == MAGIC[k] then k + 1 else 0;
      assert r > 0 ==> ws[|ws| - r..] == ws[..|ws| - 1][|ws| - r..] + [MAGIC[k]];
      assert r > 0 ==> MAGIC[..r] == MAGIC[..k] + [MAGIC[k]];
      r
  }

  /** The sequence has just been completed. */
  predicate Fires(ws: seq<Byte>) { Matched(ws) == 8 }

  /** Nothing matched so far. */
  predicate AtStart(ws: seq<Byte>) { Matched(ws) == 0 || Matched(ws) == 8 }

  /** The magic sequence, written once, fires exactly when the detector was at its start. */
  lemma FiresExactly(g: seq<Byte>)
    ensures Fires(g + MAGIC) <==> AtStart(g)
    ensures AtStart(g + MAGIC)
  {
    MatchedThrough(g, 8);
    assert MAGIC[..8] == MAGIC;
  }

  /** The next count after byte `b`. */
  function Advance(k: nat, b: Byte): nat
    requires k <= 8
  {
    var j := if k == 8 then 0 else k;
    if b == MAGIC[j] then j + 1 else 0
  }

  lemma MatchedSnoc(ws: seq<Byte>, b: Byte)
    ensures Matched(ws + [b]) == Advance(Matched(ws), b)
  {
    assert (ws + [b])[..|ws|] == ws;
  }

  /** On the way through the sequence the count follows; off the way it stays 0, because 0xDE
      occurs only at the start of the sequence. */
  lemma AdvanceMagic(n: nat, k: nat)
    requires n < 8 && k <= 8
    ensures Advance(n, MAGIC[n]) == n + 1 && Advance(8, MAGIC[0]) == 1
    ensures 0 < k < 8 ==> Advance(k, MAGIC[0]) == 0
    ensures 0 < n ==> Advance(0, MAGIC[n]) == 0
  {
  }

  lemma TakeSnoc(g: seq<Byte>, m: seq<Byte>, n: nat)
    requires 0 < n <= |m|
    ensures g + m[..n] == g + m[..n - 1] + [m[n - 1]]
  {
  }

  lemma {:induction false} MatchedThrough(g: seq<Byte>, n: nat)
    requires n <= 8
    ensures Matched(g + MAGIC[..n]) == if n == 0 then Matched(g) else if AtStart(g) then n else 0
  {
    if n == 0 {
      assert g + MAGIC[..0] == g;
    } else {
      MatchedThrough(g, n - 1);
      TakeSnoc(g, MAGIC, n);
      MatchedSnoc(g + MAGIC[..n - 1], MAGIC[n - 1]);
      AdvanceMagic(n - 1, Matched(g));
      hide Matched, Advance;
    }
  }

  /** Written twice in a row it fires from any state. */
  lemma TwiceFires(g: seq<Byte>)
    ensures Fires(g + MAGIC + MAGIC)
  {
    FiresExactly(g);
    FiresExactly(g + MAGIC);
  }

  /** A mismatch is not looked at again: a stray 0xDE makes the detector miss the sequence. */
  lemma StrayByteMisses()
    ensures !Fires([0xDE] + MAGIC)
  {
    assert [0xDE][..0] == [];
    assert Matched([0xDE]) == 1;
    FiresExactly([0xDE]);
  }

  // ---- the detector refines the recogniser ----

  function Index(st: BootState): (k: nat)
    ensures k <= 8
  {
    match st
    case Tword0 => 0 case Tword1 => 1 case Tword2 => 2 case Tword3 => 3 case Tword4 => 4
    case Tword5 => 5 case Tword6 => 6 case Tword7 => 7 case BootReady => 8
  }

  function Run(s: State, ins: seq<In>): State {
    if ins == [] then s else Next(Run(s, ins[..|ins| - 1]), ins[|ins| - 1])
  }

  function Written(ins: seq<In>): seq<Byte> {
    if ins == [] then []
    else Written(ins[..|ins| - 1]) + if ins[|ins| - 1].wr then [ins[|ins| - 1].data] else []
  }

  /** No strobe in adjacent cycles, which the register bank guarantees; no reset. */
  predicate Spaced(ins: seq<In>) {
    && (forall j :: 0 <= j < |ins| ==> ins[j].rstN)
    && (forall j :: 0 < j < |ins| ==> !(ins[j - 1].wr && ins[j].wr))
  }

  /** The detector's state is the recogniser's count, but for the two cycles that end a match. */
  predicate Follows(s: State, ws: seq<Byte>) {
    && (s.pulse ==> s.st.Tword0? && Fires(ws))
    && (Fires(ws) ==> s.st.BootReady? || s.st.Tword0?)
    && (!Fires(ws) ==> Index(s.st) == Matched(ws))
  }

  lemma StepFollows(s: State, i: In, ws: seq<Byte>)
    requires i.rstN && Follows(s, ws) && (i.wr ==> !s.st.BootReady?)
    ensures Follows(Next(s, i), if i.wr then ws + [i.data] else ws)
    ensures Next(s, i).pulse <==> s.st.BootReady?
    ensures Next(s, i).st.BootReady? <==> i.wr && Fires(ws + [i.data])
  {
    assert (ws + [i.data])[..|ws|] == ws;
    match s.st
    case BootReady =>
    case _ =>
  }

  const START: State := State(Tword0, false)

  /** Cycles in which the pulse is out. */
  function Pulses(ins: seq<In>): nat {
    if ins == [] then 0 else Pulses(ins[..|ins| - 1]) + if Run(START, ins).pulse then 1 else 0
  }

  /** How often the recogniser completed the sequence. */
  function Firings(ws: seq<Byte>): nat {
    if ws == [] then 0 else Firings(ws[..|ws| - 1]) + if Fires(ws) then 1 else 0
  }

  /** Over every run: a pulse is out only right after the magic sequence, as the eight most
      recent writes; it lasts one cycle, and there is exactly one for each completion of the
      sequence, but for one that is about to come out. No write is lost. */
  lemma {:induction false} DetectorRefines(ins: seq<In>)
    requires Spaced(ins)
    ensures var t, ws := Run(START, ins), Written(ins);
      && Follows(t, ws)
      && (t.pulse ==> |ws| >= 8 && ws[|ws| - 8..] == MAGIC)
      && Pulses(ins) + (if t.st.BootReady? then 1 else 0) == Firings(ws)
    ensures Run(START, ins).st.BootReady? ==> ins != [] && ins[|ins| - 1].wr
  {
    if ins != [] {
      var before, i := ins[..|ins| - 1], ins[|ins| - 1];
      DetectorRefines(before);
      var ws := Written(before);
      StepFollows(Run(START, before), i, ws);
      assert ws + [] == ws && (ws + [i.data])[..|ws|] == ws;
      hide Next, Follows;
      CompleteMagic(Written(ins));
      hide Matched;
    }
  }

  lemma CompleteMagic(ws: seq<Byte>)
    ensures Fires(ws) ==> |ws| >= 8 && ws[|ws| - 8..] == MAGIC
  {
    assert MAGIC[..8] == MAGIC;
  }
}
