/** The host paths from a byte buffer to the configuration pins. */
module HostEndToEnd {
  import opened Bytes
  import opened Serialiser
  import opened HostPath
  import opened Producers
  import opened Board
  import Driver
  import XilinxLoader

  /** For every bitstream, every chunking and every interleaving of register writes with the
      clock: the bits clocked into the FPGA are a prefix of the bitstream, MSB first. They are all
      of it while the loader waits for DONE and ever after in the session; and a loader that
      reports success has sent all of it, or is in GOT_DONE because DONE was high at a bit. */
  lemma HostPathEndToEnd(s: Sys, acts: seq<Action>, chunks: seq<seq<Byte>>)
    requires Started(s) && InSession(acts) && Polite(s, acts)
    requires Payloads(true, Pushes(acts, s.r0Size, s.r0Last)) <= Marked(DriverGroups(chunks))
    ensures RunActs(s, acts).wire <= Bits(Flatten(chunks))
    ensures Finished(RunActs(s, acts)) ==> RunActs(s, acts).wire == Bits(Flatten(chunks))
    ensures var t := RunActs(s, acts);
      t.ld.csrDone && !t.ld.csrError ==> t.wire == Bits(Flatten(chunks)) || t.ld.fsm.GotDone?
  {
    hide *;
    var asked, all := Payloads(true, Pushes(acts, s.r0Size, s.r0Last)), Marked(DriverGroups(chunks));
    WirePrefix(s, acts);
    ProducersAgree(chunks);
    StreamPrefix(asked, all);
    BitsPrefix(Stream(asked), Stream(all));
    StartedRun(s, acts);
    SuccessMeansFinished(RunActs(s, acts));
    if Finished(RunActs(s, acts)) {
      XlastPlacement(chunks);
      AskedForAll(asked, all);
      FinishedXlast(s, acts);
      WireComplete(s, acts);
    }
  }

  /** What the FPGA has received by then determines what was sent, whatever the chunking. */
  lemma WireDetermines(s: Sys, acts: seq<Action>, chunks: seq<seq<Byte>>, other: seq<Byte>)
    requires Started(s) && InSession(acts) && Polite(s, acts) && Finished(RunActs(s, acts))
    requires Payloads(true, Pushes(acts, s.r0Size, s.r0Last)) <= Marked(DriverGroups(chunks))
    ensures RunActs(s, acts).wire == Bits(other) <==> Flatten(chunks) == other
  {
    hide *;
    HostPathEndToEnd(s, acts, chunks);
    if RunActs(s, acts).wire == Bits(other) {
      BitsInjective(Flatten(chunks), other);
    }
  }

  lemma SuccessMeansFinished(t: Sys)
    requires Accounted(t)
    ensures t.ld.csrDone && !t.ld.csrError ==> Finished(t) || t.ld.fsm.GotDone?
  {
  }

  /** A prefix that contains the only XLAST payload, the final one, is the whole. */
  lemma AskedForAll(asked: seq<Payload>, all: seq<Payload>)
    requires asked <= all && forall j :: 0 <= j < |all| ==> (all[j].last <==> j == |all| - 1)
    ensures LastOnlyAtEnd(asked)
    ensures (exists p :: p in asked && p.last) ==> asked == all
  {
    assert forall j :: 0 <= j < |asked| ==> asked[j] == all[j];
  }

  /** The loader waits for DONE only after an entry with XLAST. */
  lemma FinishedXlast(s: Sys, acts: seq<Action>)
    requires Started(s) && InSession(acts) && Polite(s, acts) && Finished(RunActs(s, acts))
    ensures exists p :: p in Payloads(true, Pushes(acts, s.r0Size, s.r0Last)) && p.last
  {
    hide RunActs, Pushes, Bits, Stream, Finished, Complete;
    StartedRun(s, acts);
    FinishedComplete(RunActs(s, acts));
    PoppedXlast(RunActs(s, acts));
  }

  lemma PoppedXlast(t: Sys)
    requires Coherent(t) && t.msbf && Complete(t)
    ensures exists p :: p in Payloads(true, t.pushed) && p.last
  {
    var some, n := Payloads(true, t.popped), |t.popped| - 1;
    assert some[n].last;
    assert t.popped <= t.pushed;
    assert some[n] == Payloads(true, t.pushed)[n];
  }

  /** The wire never runs ahead of what the driver has consumed. */
  lemma WireWithinConsumed(t: Sys, held: seq<Group>, groups: seq<Group>)
    requires Coherent(t) && t.msbf
    requires Payloads(true, t.pushed) + Unmarked(held) == Unmarked(groups)
    ensures t.wire <= Bits(Flatten(groups))
  {
    hide Clocked, Payloads, Unmarked;
    WireOfPushed(t);
    MarkedStream(groups);
    StreamPrefix(Payloads(true, t.pushed), Unmarked(groups));
    BitsPrefix(Stream(Payloads(true, t.pushed)), Stream(Unmarked(groups)));
  }

  lemma DelayedWire(dev: Driver.Device, t: Sys)
    requires dev.Delayed() && Coherent(t) && t.msbf && t.pushed == dev.port.sys.pushed
    ensures t.wire <= Bits(Flatten(dev.groups))
  {
    WireWithinConsumed(t, dev.Pending(), dev.groups);
  }

  /** At the end of a complete session, whatever the loader's state. */
  lemma SessionWire(s: Sys, t: Sys, chunks: seq<seq<Byte>>)
    requires Started(s) && Reaches(s, t) && Payloads(true, t.pushed) == Marked(DriverGroups(chunks))
    ensures t.wire <= Bits(Flatten(chunks))
    ensures Finished(t) ==> t.wire == Bits(Flatten(chunks))
    ensures t.ld.csrDone && !t.ld.csrError ==> t.wire == Bits(Flatten(chunks)) || t.ld.fsm.GotDone?
  {
    var acts :| InSession(acts) && Polite(s, acts) && RunActs(s, acts) == t;
    StartedRun(s, acts);
    HostPathEndToEnd(s, acts, chunks);
  }

  function Contents(chunks: seq<Driver.Chunk>): (bytes: seq<seq<Byte>>)
    requires forall c :: c in chunks ==> c.Readable()
    ensures |bytes| == |chunks|
  {
    seq(|chunks|, j requires 0 <= j < |chunks| => assert chunks[j] in chunks; chunks[j].Bytes())
  }

  lemma OneMoreChunk(chunks: seq<Driver.Chunk>, k: nat)
    requires k < |chunks| && forall c :: c in chunks ==> c.Readable()
    ensures chunks[k] in chunks
    ensures DriverGroups(Contents(chunks[..k + 1])) == DriverGroups(Contents(chunks[..k])) + Groups4(chunks[k].Bytes())
  {
    hide DriverGroups, Groups4;
    var upTo := Contents(chunks[..k + 1]);
    assert upTo[..k] == Contents(chunks[..k]) && upTo[k] == chunks[k].Bytes();
    DriverGroupsLast(upTo);
  }

  lemma PartOfChunks(chunks: seq<Driver.Chunk>, k: nat, taken: nat)
    requires k < |chunks| && forall c :: c in chunks ==> c.Readable()
    requires chunks[k] in chunks && taken <= chunks[k].size
    ensures Flatten(DriverGroups(Contents(chunks[..k])) + Groups4(chunks[k].Bytes()[..taken]))
      <= Flatten(Contents(chunks))
  {
    hide Flatten, DriverGroups, Groups4;
    assert Contents(chunks[..k]) == Contents(chunks)[..k];
    PartOfGroups(Contents(chunks), k, chunks[k].Bytes()[..taken]);
  }

  lemma PartOfGroups(chunks: seq<seq<Byte>>, k: nat, bytes: seq<Byte>)
    requires k < |chunks| && bytes <= chunks[k]
    ensures Flatten(DriverGroups(chunks[..k]) + Groups4(bytes)) <= Flatten(chunks)
  {
    hide Flatten, DriverGroups, Groups4;
    DriverGroupsFlat(chunks[..k]);
    Groups4Flat(bytes);
    FlattenConcat(DriverGroups(chunks[..k]), Groups4(bytes));
    FlattenConcat(chunks[..k], chunks[k..]);
    assert chunks == chunks[..k] + chunks[k..];
    FlattenFirst(chunks[k..]);
  }

  lemma AllOfChunks(chunks: seq<Driver.Chunk>)
    requires forall c :: c in chunks ==> c.Readable()
    ensures Flatten(DriverGroups(Contents(chunks))) == Flatten(Contents(chunks))
  {
    DriverGroupsFlat(Contents(chunks));
  }

  /** The `write` calls, until one fails. */
  method WriteAll(dev: Driver.Device, chunks: seq<Driver.Chunk>) returns (err: int)
    requires forall c :: c in chunks ==> c.Readable()
    requires dev.Delayed() && dev.groups == []
    modifies dev, dev.port
    ensures dev.Delayed() && Reaches(old(dev.port.sys), dev.port.sys)
    ensures err == 0 || err == -Driver.EBUSY
    ensures err == 0 ==> dev.groups == DriverGroups(Contents(chunks))
    ensures Flatten(dev.groups) <= Flatten(Contents(chunks))
    ensures old(dev.port.log) <= dev.port.log && Pushing(Since(old(dev.port.log), dev.port.log))
    ensures err != 0 ==>
      |dev.port.sys.q| >= FIFO_SIZE && Driver.EndsGivenUp(Since(old(dev.port.log), dev.port.log))
  {
    hide Driver.Device.Delayed, Reaches, Contents, Flatten, DriverGroups, Groups4, Pushing, Driver.EndsGivenUp;
    ReachesSelf(dev.port.sys);
    NothingWritten(chunks);
    Driver.NothingPushed();
    assert Since(dev.port.log, dev.port.log) == [];
    for k := 0 to |chunks|
      invariant dev.Delayed() && Reaches(old(dev.port.sys), dev.port.sys)
      invariant dev.groups == DriverGroups(Contents(chunks[..k]))
      invariant old(dev.port.log) <= dev.port.log && Pushing(Since(old(dev.port.log), dev.port.log))
    {
      ghost var before, logged := dev.port.sys, dev.port.log;
      OneMoreChunk(chunks, k);
      ghost var taken;
      err, taken := dev.WriteBuf(chunks[k]);
      ReachesTrans(old(dev.port.sys), before, dev.port.sys);
      SinceTrans(old(dev.port.log), logged, dev.port.log);
      PushingConcat(Since(old(dev.port.log), logged), Since(logged, dev.port.log));
      if err != 0 {
        PartOfChunks(chunks, k, taken);
        Driver.StillEnds(Since(old(dev.port.log), logged), Since(logged, dev.port.log));
        return;
      }
      assert chunks[k].Bytes()[..taken] == chunks[k].Bytes();
    }
    assert chunks[..|chunks|] == chunks;
    AllOfChunks(chunks);
    err := 0;
  }

  lemma NothingWritten(chunks: seq<Driver.Chunk>)
    requires forall c :: c in chunks ==> c.Readable()
    ensures DriverGroups(Contents(chunks[..0])) == []
  {
  }

  /** Only if the bootloader has answered the words, and only if no `write` call has failed the
      closing with its EXIT. */
  ghost predicate WrittenAndClosed(words: seq<Access>, rest: seq<Access>, answered: bool, completed: bool,
                                   err: int, polls: nat) {
    && Pushing(words)
    && if !answered then words == [] && rest == []
       else if !completed then rest == [] && Driver.EndsGivenUp(words)
       else Driver.ClosingLog(rest, err, polls)
  }

  /** All accesses of a session. */
  ghost predicate SessionLog(seg: seq<Access>, answered: bool, completed: bool, err: int, polls: nat) {
    exists done, error, words, rest ::
      && seg == Driver.OpeningLog(done, error, answered) + words + rest
      && WrittenAndClosed(words, rest, answered, completed, err, polls)
  }

  lemma SessionEnds(was: seq<Access>, done: bool, error: bool, written: seq<Access>, now: seq<Access>,
                    answered: bool, completed: bool, err: int, polls: nat)
    requires was + Driver.OpeningLog(done, error, answered) <= written <= now
    requires var words := Since(was + Driver.OpeningLog(done, error, answered), written);
      WrittenAndClosed(words, Since(written, now), answered, completed, err, polls)
    ensures was <= now && SessionLog(Since(was, now), answered, completed, err, polls)
  {
    hide Driver.OpeningLog, WrittenAndClosed;
    var begun := was + Driver.OpeningLog(done, error, answered);
    var words, rest := Since(begun, written), Since(written, now);
    assert Since(was, now) == Driver.OpeningLog(done, error, answered) + words + rest;
  }

  /** CSR is written three times at most: SWRST, START and, if no `write` call has failed, EXIT. */
  lemma SessionCsrs(seg: seq<Access>, answered: bool, completed: bool, err: int, polls: nat)
    requires SessionLog(seg, answered, completed, err, polls) && (completed ==> answered)
    ensures Csrs(seg) == (if answered then [Driver.CSR_SWRST, Driver.CSR_START] else []) +
      if completed then [Driver.CSR_EXIT] else []
  {
    hide Csrs, Driver.OpeningLog, Driver.ClosingLog, Driver.EndsGivenUp;
    var done, error, words, rest :|
      && seg == Driver.OpeningLog(done, error, answered) + words + rest
      && WrittenAndClosed(words, rest, answered, completed, err, polls);
    CsrsConcat(Driver.OpeningLog(done, error, answered) + words, rest);
    CsrsConcat(Driver.OpeningLog(done, error, answered), words);
    Driver.OpeningCsrs(done, error, answered);
    NoCsrs(words);
    if completed {
      Driver.ClosingCsrs(rest, err, polls);
    } else {
      NoCsrs(rest);
    }
  }

  /** A whole FPGA-manager session: init, the writes until one fails, and if none does complete.
      `last` is the hardware state at its end, before the EXIT write if there is one. */
  method LoadBitstream(dev: Driver.Device, chunks: seq<Driver.Chunk>, polls: nat)
    returns (err: int, ghost last: Sys, ghost answered: bool, ghost enabled: bool, ghost completed: bool)
    requires forall c :: c in chunks ==> c.Readable()
    requires dev.port.sys.q == []
    modifies dev, dev.port
    ensures err in {0, -Driver.ENXIO, -Driver.EBUSY, -Driver.EIO, -Driver.EINVAL}
    ensures err == -Driver.ENXIO <==> !answered
    ensures old(dev.port.log) <= dev.port.log
    ensures SessionLog(Since(old(dev.port.log), dev.port.log), answered, completed, err, polls)
    ensures if completed then exists left :: AfterCsr(last, Driver.CSR_EXIT, left, dev.port.sys)
            else dev.port.sys == last
    ensures answered && !completed ==> err == -Driver.EBUSY
    ensures err == -Driver.EBUSY ==> |last.q| >= FIFO_SIZE
    ensures !answered ==> !completed && Quiet(old(dev.port.sys), last)
    ensures answered ==> last.wire <= Bits(Flatten(Contents(chunks)))
    ensures completed && err != -Driver.EBUSY ==>
      && Payloads(true, last.pushed) == Marked(DriverGroups(Contents(chunks)))
      && (Finished(last) ==> last.wire == Bits(Flatten(Contents(chunks))))
      && err == if polls > 0 && last.ld.csrError then -Driver.EINVAL
                else if polls == 0 || !last.ld.csrDone then -Driver.EIO else 0
    ensures err == 0 ==>
      && last.ld.csrDone && !last.ld.csrError && last.doneSeen
      && (last.wire == Bits(Flatten(Contents(chunks))) || last.ld.fsm.GotDone?)
    ensures err == 0 && last.ld.fsm.GotDone? ==> dev.port.sys.ld.fsm.StartupCclk0?
  {
    hide Driver.Device.Delayed, Coherent, Honest, Reaches, Marked, Payloads, Bits, Flatten, DriverGroups, Contents;
    hide SessionLog, Driver.OpeningLog, Driver.ClosingLog, Driver.EndsGivenUp, Pushing, AfterCsr, Driver.StartedBy;
    err, answered, enabled := dev.WriteInit();
    ghost var done, error :| dev.port.log == old(dev.port.log) + Driver.OpeningLog(done, error, answered);
    ghost var started, begun := dev.port.sys, dev.port.log;
    last, completed := started, false;
    if err != 0 {
      Driver.NothingPushed();
      assert Since(begun, begun) == [];
      SessionEnds(old(dev.port.log), done, error, begun, begun, answered, completed, err, polls);
      return;
    }
    err := WriteAll(dev, chunks);
    ghost var written, filled := dev.port.sys, dev.port.log;
    last := written;
    ReachesKeeps(started, written);
    DelayedWire(dev, written);
    BitsPrefix(Flatten(dev.groups), Flatten(Contents(chunks)));
    if err != 0 {
      assert Since(filled, filled) == [];
      SessionEnds(old(dev.port.log), done, error, filled, filled, answered, completed, err, polls);
      return;
    }
    ghost var groups := dev.groups;
    ghost var held := dev.Pending();
    DelayedFacts(dev);
    err, last := dev.WriteStop(polls);
    completed := true;
    SessionEnds(old(dev.port.log), done, error, filled, dev.port.log, answered, completed, err, polls);
    ghost var left :| AfterCsr(last, Driver.CSR_EXIT, left, dev.port.sys);
    Driver.ExitStartsUp(last, left, dev.port.sys);
    ReachesTrans(started, written, last);
    ReachesKeeps(started, last);
    if err == -Driver.EBUSY {
      WireWithinConsumed(last, held, groups);
    } else {
      SessionWire(started, last, Contents(chunks));
    }
  }

  lemma DelayedFacts(dev: Driver.Device)
    requires dev.Delayed()
    ensures Payloads(true, dev.port.sys.pushed) + Unmarked(dev.Pending()) == Unmarked(dev.groups)
  {
  }

  // ---- entries left in the FIFO by an earlier session ----

  /** `n` entries further down. */
  function Dropped(q: seq<Entry>, n: nat): seq<Entry> { if n >= |q| then [] else q[n..] }

  lemma IdleDrains(s: Sys, pins: Pins)
    requires s.ld.fsm.Idle?
    ensures var t := Step(s, Clock(pins)); t.ld.fsm.Idle? && t.q == Dropped(s.q, 1)
  {
    EdgeState(s, false, false, pins);
    hide XilinxLoader.Next, EdgeBits;
  }

  /** An idle loader takes one entry from the FIFO in each cycle. */
  lemma {:induction false} IdleRunDrains(s: Sys, acts: seq<Action>)
    requires s.ld.fsm.Idle? && Clocks(acts)
    ensures var t := RunActs(s, acts); t.ld.fsm.Idle? && t.q == Dropped(s.q, |acts|)
  {
    if acts != [] {
      IdleRunDrains(s, acts[..|acts| - 1]);
      IdleDrains(RunActs(s, acts[..|acts| - 1]), acts[|acts| - 1].pins);
    }
  }

  lemma StartDrains(s: Sys, bootEn: bool, pins: Pins)
    requires s.ld.fsm.Idle?
    ensures var t := Step(s, WriteCsr(Driver.CSR_START, bootEn, pins)); t.q == Dropped(s.q, 1) && t.pushed == t.q
  {
    hide XilinxLoader.Next, EdgeBits;
  }

  /** After SWRST nothing but time empties the FIFO: it is empty after START exactly when the
      cycles in between, and START's own, are at least as many as the entries left. */
  lemma EmptyAtStart(s: Sys, gap: seq<Action>, bootEn: bool, pins: Pins)
    requires s.ld.fsm.Idle? && Clocks(gap)
    ensures var t := Step(RunActs(s, gap), WriteCsr(Driver.CSR_START, bootEn, pins));
      t.q == Dropped(s.q, |gap| + 1) && t.pushed == t.q && (t.q == [] <==> |gap| + 1 >= |s.q|)
  {
    IdleRunDrains(s, gap);
    StartDrains(RunActs(s, gap), bootEn, pins);
    hide RunActs, Step;
  }

  lemma PayloadsConcat(a: seq<Entry>, b: seq<Entry>)
    ensures Payloads(true, a + b) == Payloads(true, a) + Payloads(true, b)
  {
  }

  /** What is left then goes out first: the wire carries a prefix of the stale entries' bits
      followed by those of the new session. */
  lemma StaleFirst(s: Sys, acts: seq<Action>)
    requires Coherent(s) && s.msbf && s.pushed == s.q && InSession(acts) && Polite(s, acts)
    ensures RunActs(s, acts).wire <=
      Bits(Stream(Payloads(true, s.q)) + Stream(Payloads(true, Pushes(acts, s.r0Size, s.r0Last))))
  {
    RunCoherent(s, acts);
    PushedInOrder(s, acts);
    hide RunActs, Coherent, Bits, Stream, Pushes, Payloads;
    var t := RunActs(s, acts);
    WireOfPushed(t);
    var news := Pushes(acts, s.r0Size, s.r0Last);
    PayloadsConcat(s.q, news);
    StreamConcat(Payloads(true, s.q), Payloads(true, news));
  }

  /** And they do go out: once as many entries have been popped, all their bits are on the wire. */
  lemma StaleOut(s: Sys, acts: seq<Action>)
    requires Coherent(s) && s.msbf && s.pushed == s.q && InSession(acts) && Polite(s, acts)
    requires RunActs(s, acts).ld.fsm.ReadFifo? && |RunActs(s, acts).popped| >= |s.q|
    ensures Bits(Stream(Payloads(true, s.q))) <= RunActs(s, acts).wire
  {
    RunCoherent(s, acts);
    PushedInOrder(s, acts);
    hide RunActs, Bits, Stream, Pushes, Payloads;
    var t := RunActs(s, acts);
    assert s.q <= t.pushed && t.popped <= t.pushed;
    assert s.q <= t.popped;
    PayloadsPrefix(true, s.q, t.popped);
    StreamPrefix(Payloads(true, s.q), Payloads(true, t.popped));
    BitsPrefix(Stream(Payloads(true, s.q)), Stream(Payloads(true, t.popped)));
  }
}
