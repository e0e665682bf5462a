/** What the loader puts on the wire: at every point of every run the configuration edges
    carry a prefix of the popped entries' bytes, MSB first, with DIN stable. */
module Serialiser {
  import opened Bytes
  import opened XilinxLoader

  /** The bytes one FIFO entry contributes, and its XLAST mark. */
  datatype Payload = Payload(bytes: seq<Byte>, last: bool)

  predicate Sized(p: Payload) { 1 <= |p.bytes| <= 4 }

  function Stream(ps: seq<Payload>): seq<Byte> {
    if ps == [] then [] else Stream(ps[..|ps| - 1]) + ps[|ps| - 1].bytes
  }

  lemma StreamLast(ps: seq<Payload>)
    ensures Stream(ps) == if ps == [] then [] else Stream(ps[..|ps| - 1]) + ps[|ps| - 1].bytes
  {
  }

  lemma {:induction false} StreamConcat(a: seq<Payload>, b: seq<Payload>)
    ensures Stream(a + b) == Stream(a) + Stream(b)
  {
    hide Stream;
    StreamLast(b);
    if b == [] {
      assert a + b == a;
    } else {
      StreamConcat(a, b[..|b| - 1]);
      StreamLast(a + b);
      assert (a + b)[..|a + b| - 1] == a + b[..|b| - 1];
    }
  }

  lemma StreamPrefix(a: seq<Payload>, b: seq<Payload>)
    requires a <= b
    ensures Stream(a) <= Stream(b)
  {
    StreamConcat(a, b[|a|..]);
    assert b == a + b[|a|..];
  }

  /** The payload the loader reads from its data inputs. */
  function InPayload(i: In): Payload {
    Payload(Ordered(i.msbf, i.data)[..i.dsize + 1], i.dlast)
  }

  predicate Rising(s: State, t: State) { !s.cclk && t.cclk }

  /** The bit carried by a configuration clock edge between two successive states.
      Startup clocks are the only other rising edges (`EdgesAccountedFor`). */
  function EdgeBits(s: State, t: State): seq<bool> {
    if Rising(s, t) && !s.fsm.StartupCclk1? then [t.din] else []
  }

  /** Every rising CCLK edge is a data edge or a startup edge, and DIN was already stable. */
  lemma EdgesAccountedFor(s: State, i: In)
    requires Rising(s, Next(s, i))
    ensures s.fsm.ClockEdge? || s.fsm.StartupCclk1?
    ensures Next(s, i).din == s.din
  {
    if Beginning(s.fsm) {
      NoEdgeBeginning(s, i);
    } else if !Shifting(s.fsm) {
      EdgeFinishing(s, i);
    } else if !s.fsm.ClockEdge? {
      NoEdgePopping(s, i);
    }
  }

  lemma NoEdgeBeginning(s: State, i: In)
    requires Beginning(s.fsm)
    ensures !Rising(s, Next(s, i))
  {
    hide ShiftFsm, FinishFsm, DivideClock;
  }

  lemma NoEdgePopping(s: State, i: In)
    requires s.fsm.ReadFifo? || s.fsm.ReadFifo2? || s.fsm.OutputBit?
    ensures !Rising(s, Next(s, i))
  {
    match s.fsm
    case ReadFifo =>
    case ReadFifo2 =>
    case OutputBit =>
  }

  lemma EdgeFinishing(s: State, i: In)
    requires !Beginning(s.fsm) && !Shifting(s.fsm)
    ensures Rising(s, Next(s, i)) ==> s.fsm.StartupCclk1? && Next(s, i).din == s.din
  {
    hide BeginFsm, ShiftFsm, DivideClock;
    if s.fsm.StartupCclk1? {
      StartupEdge(s, i);
      hide Next;
    }
  }

  lemma StartupEdge(s: State, i: In)
    requires s.fsm.StartupCclk1?
    ensures Rising(s, Next(s, i)) ==> Next(s, i).din == s.din
  {
    hide BeginFsm, ShiftFsm, DivideClock;
  }

  predicate NoLast(ps: seq<Payload>) { forall p :: p in ps ==> !p.last }

  /** While an entry is shifted: `k` of its bits are out and the register holds the rest. */
  ghost predicate MidEntry(s: State, ps: seq<Payload>, wire: seq<bool>) {
    && ps != []
    && NoLast(ps[..|ps| - 1])
    && var p := ps[|ps| - 1];
    && s.dLast == p.last
    && var b := Bits(p.bytes);
    && var k := |b| - 1 - s.bitCounter;
    && 0 <= k
    && wire == Bits(Stream(ps[..|ps| - 1])) + b[..k]
    && if s.fsm.OutputBit? then s.dData[..|b| - k] == b[k..]
       else !s.cclk && s.din == b[k] && s.dData[..|b| - k - 1] == b[k + 1..]
  }

  /** `wire` is what the clocked bits so far are worth, given the popped payloads `ps`. */
  ghost predicate Clocked(s: State, ps: seq<Payload>, wire: seq<bool>) {
    && (forall p :: p in ps ==> Sized(p))
    && match s.fsm
       case Idle | GotDone | StartupCclk0 | StartupCclk1 => wire <= Bits(Stream(ps))
       case ExtendProg | WaitInit | WaitInit2 => ps == [] && wire == []
       case ReadFifo => NoLast(ps) && wire == Bits(Stream(ps))
       case ReadFifo2 => ps != [] && NoLast(ps[..|ps| - 1]) && wire == Bits(Stream(ps[..|ps| - 1]))
       case OutputBit | ClockEdge => MidEntry(s, ps, wire)
       case WaitDone => ps != [] && ps[|ps| - 1].last && NoLast(ps[..|ps| - 1]) && wire == Bits(Stream(ps))
  }

  predicate Starting(s: State, i: In) { i.rstN && !i.swrst && s.fsm.Idle? && i.start }

  /** The payload history: a START begins a new one, a pop in READ_FIFO extends it by `p`. */
  function PoppedAfter(s: State, i: In, ps: seq<Payload>, p: Payload): seq<Payload> {
    if Starting(s, i) then [] else if s.fsm.ReadFifo? && CsrRd(s, i) then ps + [p] else ps
  }

  function WireAfter(s: State, i: In, wire: seq<bool>): seq<bool> {
    if Starting(s, i) then [] else wire + EdgeBits(s, Next(s, i))
  }

  /** The environment shows in READ_FIFO2 the entry that was popped. */
  predicate Presented(s: State, i: In, ps: seq<Payload>) {
    s.fsm.ReadFifo2? ==> ps != [] && InPayload(i) == ps[|ps| - 1]
  }

  /** Every step, under any reset, start, divider or pin input, keeps `Clocked`. */
  lemma ClockedStep(s: State, i: In, ps: seq<Payload>, p: Payload, wire: seq<bool>)
    requires Clocked(s, ps, wire) && Presented(s, i, ps) && Sized(p)
    ensures Clocked(Next(s, i), PoppedAfter(s, i, ps, p), WireAfter(s, i, wire))
  {
    if !i.rstN || i.swrst {
      ClockedReset(s, i, ps, p, wire);
    } else if Beginning(s.fsm) {
      ClockedBegin(s, i, ps, p, wire);
    } else if s.fsm.ReadFifo? {
      ClockedPop(s, i, ps, p, wire);
    } else if s.fsm.ReadFifo2? {
      ClockedLatch(s, i, ps, p, wire);
    } else if s.fsm.OutputBit? {
      ClockedOutput(s, i, ps, p, wire);
    } else if s.fsm.ClockEdge? {
      ClockedEdge(s, i, ps, p, wire);
    } else {
      ClockedFinish(s, i, ps, p, wire);
    }
  }

  lemma ClockedPrefix(s: State, ps: seq<Payload>, wire: seq<bool>)
    requires Clocked(s, ps, wire)
    ensures wire <= Bits(Stream(ps))
  {
    if ps != [] && MidShift(s.fsm) {
      var n := |ps| - 1;
      assert Stream(ps) == Stream(ps[..n]) + ps[n].bytes;
      BitsConcat(Stream(ps[..n]), ps[n].bytes);
    }
  }

  lemma ClockedReset(s: State, i: In, ps: seq<Payload>, p: Payload, wire: seq<bool>)
    requires Clocked(s, ps, wire) && Sized(p) && (!i.rstN || i.swrst)
    ensures Clocked(Next(s, i), PoppedAfter(s, i, ps, p), WireAfter(s, i, wire))
  {
    ClockedPrefix(s, ps, wire);
    StreamConcat(ps, [p]);
    BitsConcat(Stream(ps), Stream([p]));
  }

  lemma BeginTargets(s: State, i: In)
    requires i.rstN && !i.swrst && Beginning(s.fsm)
    ensures var f := Next(s, i).fsm;
      match s.fsm
      case Idle => if i.start then f.ExtendProg? else f.Idle?
      case ExtendProg => f.ExtendProg? || f.WaitInit?
      case WaitInit => f.Idle? || f.WaitInit? || f.WaitInit2?
      case WaitInit2 => f.WaitInit2? || f.ReadFifo?
  {
    if s.fsm.Idle? || s.fsm.ExtendProg? {
      StartTargets(s, i);
    } else {
      InitTargets(s, i);
    }
    hide Next;
  }

  lemma StartTargets(s: State, i: In)
    requires i.rstN && !i.swrst && (s.fsm.Idle? || s.fsm.ExtendProg?)
    ensures var f := Next(s, i).fsm;
      if s.fsm.ExtendProg? then f.ExtendProg? || f.WaitInit? else if i.start then f.ExtendProg? else f.Idle?
  {
    hide ShiftFsm, FinishFsm, DivideClock;
    match s.fsm
    case Idle =>
    case ExtendProg =>
  }

  lemma InitTargets(s: State, i: In)
    requires i.rstN && !i.swrst && (s.fsm.WaitInit? || s.fsm.WaitInit2?)
    ensures var f := Next(s, i).fsm;
      f.WaitInit2? || if s.fsm.WaitInit? then f.Idle? || f.WaitInit? else f.ReadFifo?
  {
    hide ShiftFsm, FinishFsm, DivideClock;
  }

  lemma ClockedBegin(s: State, i: In, ps: seq<Payload>, p: Payload, wire: seq<bool>)
    requires Clocked(s, ps, wire) && i.rstN && !i.swrst && Beginning(s.fsm)
    ensures Clocked(Next(s, i), PoppedAfter(s, i, ps, p), WireAfter(s, i, wire))
  {
    NoEdgeBeginning(s, i);
    BeginTargets(s, i);
    hide Next, Stream, Bits, MidEntry;
    assert wire + [] == wire;
  }

  lemma ClockedPop(s: State, i: In, ps: seq<Payload>, p: Payload, wire: seq<bool>)
    requires Clocked(s, ps, wire) && i.rstN && !i.swrst && s.fsm.ReadFifo? && Sized(p)
    ensures Clocked(Next(s, i), PoppedAfter(s, i, ps, p), WireAfter(s, i, wire))
  {
    assert wire + [] == wire;
    assert (ps + [p])[..|ps|] == ps;
  }

  lemma ClockedLatch(s: State, i: In, ps: seq<Payload>, p: Payload, wire: seq<bool>)
    requires Clocked(s, ps, wire) && i.rstN && !i.swrst && s.fsm.ReadFifo2? && Presented(s, i, ps)
    ensures Clocked(Next(s, i), PoppedAfter(s, i, ps, p), WireAfter(s, i, wire))
  {
    LatchFields(s, i);
    NoEdgePopping(s, i);
    if s.tick {
      ClockedLatched(s, Next(s, i), ps, wire, Ordered(i.msbf, i.data), i.dsize + 1);
    }
    hide Next, MidEntry, Bits, Stream;
    assert wire + [] == wire;
  }

  lemma ClockedLatched(s: State, t: State, ps: seq<Payload>, wire: seq<bool>, w: Word, n: nat)
    requires s.fsm.ReadFifo2? && Clocked(s, ps, wire) && 1 <= n <= 4
    requires ps[|ps| - 1] == Payload(w[..n], t.dLast)
    requires t.fsm.OutputBit? && t.dData == Bits(w) && t.bitCounter == 8 * n - 1
    ensures Clocked(t, ps, wire)
  {
    hide Bits, Stream, MidEntry;
    FirstBytes(w, n);
    MidEntryStarts(t, ps, wire);
  }

  lemma MidEntryStarts(t: State, ps: seq<Payload>, wire: seq<bool>)
    requires ps != [] && NoLast(ps[..|ps| - 1]) && t.dLast == ps[|ps| - 1].last
    requires wire == Bits(Stream(ps[..|ps| - 1])) && t.fsm.OutputBit?
    requires var b := Bits(ps[|ps| - 1].bytes); |b| == t.bitCounter + 1 && t.dData[..|b|] == b
    ensures MidEntry(t, ps, wire)
  {
    hide Bits, Stream;
    var b := Bits(ps[|ps| - 1].bytes);
    assert b[..0] == [] && b[0..] == b;
  }

  lemma FirstBytes(w: Word, n: nat)
    requires n <= 4
    ensures Bits(w[..n]) == Bits(w)[..8 * n]
  {
    BitsConcat(w[..n], w[n..]);
    assert w == w[..n] + w[n..];
  }

  lemma LatchFields(s: State, i: In)
    requires i.rstN && !i.swrst && s.fsm.ReadFifo2?
    ensures var t := Next(s, i); t.dData == Bits(Ordered(i.msbf, i.data)) && t.dLast == i.dlast
    ensures var t := Next(s, i);
      if s.tick then t.fsm.OutputBit? && t.bitCounter == 8 * i.dsize + 7 else t.fsm.ReadFifo2?
  {
  }

  lemma OutputFields(s: State, i: In)
    requires i.rstN && !i.swrst && s.fsm.OutputBit?
    ensures var t := Next(s, i);
      if s.tick then
        && !t.cclk && t.din == s.dData[0] && t.dData == Shifted(s.dData)
        && t.dLast == s.dLast && t.bitCounter == s.bitCounter
        && t.fsm == (if i.done then GotDone else ClockEdge)
      else
        && t.cclk == s.cclk && t.dData == s.dData && t.dLast == s.dLast
        && t.bitCounter == s.bitCounter && t.fsm == s.fsm
  {
  }

  lemma ClockedOutput(s: State, i: In, ps: seq<Payload>, p: Payload, wire: seq<bool>)
    requires Clocked(s, ps, wire) && i.rstN && !i.swrst && s.fsm.OutputBit?
    ensures Clocked(Next(s, i), PoppedAfter(s, i, ps, p), WireAfter(s, i, wire))
  {
    OutputFields(s, i);
    NoEdgePopping(s, i);
    if s.tick {
      ClockedShift(s, Next(s, i), ps, wire);
    } else {
      ClockedHold(s, Next(s, i), ps, wire);
    }
    hide Next, Clocked;
    assert wire + [] == wire;
  }

  lemma ClockedHold(s: State, t: State, ps: seq<Payload>, wire: seq<bool>)
    requires s.fsm.OutputBit? && Clocked(s, ps, wire)
    requires t.fsm == s.fsm && t.dData == s.dData && t.dLast == s.dLast && t.bitCounter == s.bitCounter
    ensures Clocked(t, ps, wire)
  {
  }

  lemma ClockedShift(s: State, t: State, ps: seq<Payload>, wire: seq<bool>)
    requires s.fsm.OutputBit? && Clocked(s, ps, wire)
    requires !t.cclk && t.din == s.dData[0] && t.dData == Shifted(s.dData)
    requires t.dLast == s.dLast && t.bitCounter == s.bitCounter && t.fsm in {GotDone, ClockEdge}
    ensures Clocked(t, ps, wire)
  {
    ClockedPrefix(s, ps, wire);
    var b := Bits(ps[|ps| - 1].bytes);
    var k := |b| - 1 - s.bitCounter;
    assert s.dData[0] == s.dData[..|b| - k][0] == b[k];
    assert Shifted(s.dData)[..|b| - k - 1] == s.dData[..|b| - k][1..] == b[k + 1..];
  }

  lemma EdgeFields(s: State, i: In)
    requires i.rstN && !i.swrst && s.fsm.ClockEdge?
    ensures var t := Next(s, i);
      if s.tick then
        && t.cclk && t.din == s.din && t.dData == s.dData && t.dLast == s.dLast
        && t.bitCounter == Dec5(s.bitCounter)
        && t.fsm == (if s.bitCounter != 0 then OutputBit else if s.dLast then WaitDone else ReadFifo)
      else
        && t.cclk == s.cclk && t.din == s.din && t.dData == s.dData && t.dLast == s.dLast
        && t.bitCounter == s.bitCounter && t.fsm == s.fsm
  {
  }

  lemma ClockedEdge(s: State, i: In, ps: seq<Payload>, p: Payload, wire: seq<bool>)
    requires Clocked(s, ps, wire) && i.rstN && !i.swrst && s.fsm.ClockEdge?
    ensures Clocked(Next(s, i), PoppedAfter(s, i, ps, p), WireAfter(s, i, wire))
  {
    EdgeFields(s, i);
    var t := Next(s, i);
    if s.tick {
      ClockedTick(s, t, ps, wire);
    } else {
      ClockedHolds(s, t, ps, wire);
    }
    hide Next, Clocked;
    assert wire + [] == wire;
  }

  lemma ClockedHolds(s: State, t: State, ps: seq<Payload>, wire: seq<bool>)
    requires Clocked(s, ps, wire) && s.fsm.ClockEdge? && t.fsm == s.fsm
    requires t.cclk == s.cclk && t.din == s.din && t.dData == s.dData && t.dLast == s.dLast
    requires t.bitCounter == s.bitCounter
    ensures Clocked(t, ps, wire)
  {
  }

  lemma ClockedTick(s: State, t: State, ps: seq<Payload>, wire: seq<bool>)
    requires s.fsm.ClockEdge? && Clocked(s, ps, wire)
    requires t.cclk && t.din == s.din && t.dData == s.dData && t.dLast == s.dLast
    requires t.bitCounter == Dec5(s.bitCounter)
    requires t.fsm == if s.bitCounter != 0 then OutputBit else if s.dLast then WaitDone else ReadFifo
    ensures Clocked(t, ps, wire + [s.din]) && !s.cclk
  {
    var n := |ps| - 1;
    var b := Bits(ps[n].bytes);
    var k := |b| - 1 - s.bitCounter;
    assert b[..k] + [b[k]] == b[..k + 1];
    assert wire + [b[k]] == Bits(Stream(ps[..n])) + b[..k + 1];
    if s.bitCounter == 0 {
      BitsConcat(Stream(ps[..n]), ps[n].bytes);
      assert b[..k + 1] == b;
      assert ps == ps[..n] + [ps[n]];
    }
  }

  lemma FlagsKept(s: State, i: In)
    requires Shifting(s.fsm) && i.rstN && !i.swrst
    ensures Next(s, i).csrDone == s.csrDone && Next(s, i).csrError == s.csrError
  {
    hide BeginFsm, FinishFsm, DivideClock;
    match s.fsm
    case ReadFifo =>
    case ReadFifo2 =>
    case OutputBit =>
    case ClockEdge =>
  }

  lemma FinishTargets(s: State, i: In)
    requires i.rstN && !i.swrst && !Beginning(s.fsm) && !Shifting(s.fsm)
    ensures var f := Next(s, i).fsm; f == s.fsm || f.Idle? || f.StartupCclk0? || f.StartupCclk1?
  {
    hide BeginFsm, ShiftFsm, DivideClock;
  }

  lemma ClockedFinish(s: State, i: In, ps: seq<Payload>, p: Payload, wire: seq<bool>)
    requires Clocked(s, ps, wire) && i.rstN && !i.swrst && !Beginning(s.fsm) && !Shifting(s.fsm)
    ensures Clocked(Next(s, i), PoppedAfter(s, i, ps, p), WireAfter(s, i, wire))
  {
    EdgeFinishing(s, i);
    FinishTargets(s, i);
    assert wire + [] == wire;
  }

  /** The state after a run, and the bits of its configuration edges. */
  function Run(s: State, ins: seq<In>): State {
    if ins == [] then s else Next(Run(s, ins[..|ins| - 1]), ins[|ins| - 1])
  }

  function Wire(s: State, ins: seq<In>): seq<bool> {
    if ins == [] then []
    else
      var before := ins[..|ins| - 1];
      Wire(s, before) + EdgeBits(Run(s, before), Run(s, ins))
  }

  /** The states in which an entry is on its way out. */
  predicate MidShift(f: Fsm) { f.ReadFifo2? || f.OutputBit? || f.ClockEdge? }

  /** From READ_FIFO2 the run has only been shifting one entry, never interrupted by a reset. */
  predicate OneEntry(s: State, ins: seq<In>, p: Payload) {
    && (forall j :: 0 <= j < |ins| ==> ins[j].rstN && !ins[j].swrst)
    && (forall j :: 0 <= j < |ins| ==> MidShift(Run(s, ins[..j]).fsm))
    && (forall j :: 0 <= j < |ins| && Run(s, ins[..j]).fsm.ReadFifo2? ==> InPayload(ins[j]) == p)
  }

  lemma {:induction false} OneEntryClocked(s: State, ins: seq<In>, p: Payload)
    requires s.fsm.ReadFifo2? && Sized(p) && OneEntry(s, ins, p)
    ensures Clocked(Run(s, ins), [p], Wire(s, ins))
  {
    OneEntryStarts(s, p);
    if ins != [] {
      var before := ins[..|ins| - 1];
      OneEntryPrefix(s, ins, p);
      OneEntryClocked(s, before, p);
      OneEntryStep(Run(s, before), ins[|ins| - 1], p, Wire(s, before));
    }
  }

  lemma OneEntryPrefix(s: State, ins: seq<In>, p: Payload)
    requires ins != [] && OneEntry(s, ins, p)
    ensures OneEntry(s, ins[..|ins| - 1], p)
    ensures var t, i := Run(s, ins[..|ins| - 1]), ins[|ins| - 1];
      i.rstN && !i.swrst && MidShift(t.fsm) && (t.fsm.ReadFifo2? ==> InPayload(i) == p)
  {
    hide Next, InPayload, MidShift;
    var before := ins[..|ins| - 1];
    assert forall m :: 0 <= m < |before| ==> before[..m] == ins[..m];
  }

  lemma OneEntryStep(t: State, i: In, p: Payload, wire: seq<bool>)
    requires Clocked(t, [p], wire) && Sized(p) && MidShift(t.fsm) && (t.fsm.ReadFifo2? ==> InPayload(i) == p)
    requires i.rstN && !i.swrst
    ensures Clocked(Next(t, i), [p], wire + EdgeBits(t, Next(t, i)))
  {
    hide Clocked, Next, EdgeBits, InPayload;
    ClockedStep(t, i, [p], p, wire);
  }

  lemma OneEntryStarts(s: State, p: Payload)
    requires s.fsm.ReadFifo2? && Sized(p)
    ensures Clocked(s, [p], [])
  {
    assert [p][..0] == [];
  }

  /** An entry that is not cut short by DONE gives exactly 8*(dsize+1) edges, whatever the
      divider did meanwhile, and edge k carries bit 31-k of the byte-ordered word. */
  lemma EntrySerialised(s: State, ins: seq<In>, entry: In)
    requires s.fsm.ReadFifo2? && OneEntry(s, ins, InPayload(entry))
    requires Run(s, ins).fsm.ReadFifo? || Run(s, ins).fsm.WaitDone?
    ensures |Wire(s, ins)| == 8 * (entry.dsize + 1)
    ensures forall k :: 0 <= k < |Wire(s, ins)| ==>
      Wire(s, ins)[k] == Bits(Ordered(entry.msbf, entry.data))[k]
    ensures Run(s, ins).fsm.WaitDone? <==> entry.dlast
  {
    hide Run, Wire, OneEntry, Clocked, Bits;
    var p := InPayload(entry);
    OneEntryClocked(s, ins, p);
    WholeEntry(Run(s, ins), p, Wire(s, ins));
    FirstBytes(Ordered(entry.msbf, entry.data), entry.dsize + 1);
  }

  lemma WholeEntry(t: State, p: Payload, wire: seq<bool>)
    requires Clocked(t, [p], wire) && (t.fsm.ReadFifo? || t.fsm.WaitDone?)
    ensures wire == Bits(p.bytes) && (t.fsm.WaitDone? <==> p.last)
  {
    assert Stream([p]) == [] + p.bytes == p.bytes;
    assert p in [p];
  }
}
