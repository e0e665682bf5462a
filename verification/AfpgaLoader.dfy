/** The flasher's direct path: `program_afpga` sends each word at once, so only a final short
    word can carry XLAST. */
module AfpgaLoader {
  import opened Bytes
  import opened Serialiser
  import opened HostPath
  import opened Producers
  import opened Board
  import Driver
  import HostEndToEnd
  import LateDone

  /** The tool's return value, or that it was still polling when the observation ended. */
  datatype Outcome = Returned(value: int) | StillPolling

  class Tool {
    const port: Port
    const endian: Endian

    constructor (port: Port, endian: Endian)
      ensures this.port == port && this.endian == endian
    {
      this.port, this.endian := port, endian;
    }

    /** The register value a big-endian bus sees when `csr_writel` stores `value`. */
    function OnBus(value: Word): (seen: Word)
      ensures seen == value
    {
      StoreU32(endian, Htonl(endian, value))
    }

    lemma BusOrder(bytes: Word)
      ensures OnBus(Htonl(endian, LoadU32(endian, bytes))) == bytes
    {
      FlasherWordOrder(endian, bytes);
    }

    /** Wakes the bootloader; true exactly when it has answered with its signature. Its version is
        then read from CSR. */
    method EnterBootloader() returns (found: bool, ghost answered: bool)
      modifies port
      ensures found == answered
      ensures Quiet(old(port.sys), port.sys)
      ensures var asked := old(port.log) + Triggers(Driver.UNLOCK) + [SawIdr(answered)];
        if answered then exists done, error :: port.log == asked + [SawCsr(done, error)] else port.log == asked
    {
      var bootSeq: seq<Byte> := [0xde, 0xad, 0xbe, 0xef, 0xca, 0xfe, 0xba, 0xbe];
      ReachesSelf(port.sys);
      for i := 0 to 8
        invariant Quiet(old(port.sys), port.sys)
        invariant port.log == old(port.log) + Triggers(bootSeq[..i])
      {
        ghost var before := port.sys;
        port.WriteBtrigr(bootSeq[i]);
        QuietTrans(old(port.sys), before, port.sys);
        TriggersSnoc(bootSeq, i);
      }
      assert bootSeq[..8] == Driver.UNLOCK;
      ghost var unlocked := port.sys;
      var idr;
      idr, answered := port.ReadIdr();
      QuietTrans(old(port.sys), unlocked, port.sys);
      found := idr == Driver.SIGNATURE;
      if found {
        ghost var asked := port.sys;
        var _, _ := port.ReadCsr();
        QuietTrans(old(port.sys), asked, port.sys);
      }
    }

    method SendWord(memory: seq<Byte>, i: nat, n: nat)
      requires i + 4 <= |memory| && 1 <= n <= 4
      requires Room(port.sys) && port.sys.sawRoom
      modifies port
      ensures Reaches(old(port.sys), port.sys)
      ensures port.sys.pushed == old(port.sys.pushed) + [Entry(memory[i..i + 4], n - 1, n < 4)]
      ensures port.log == old(port.log) + [WroteR0(Driver.R0Value(n, n < 4)), WroteR1(memory[i..i + 4])]
    {
      hide Reaches, Driver.R0Value, OnBus, Htonl, LoadU32;
      var bytes := memory[i..i + 4];
      var word := LoadU32(endian, bytes);
      BusOrder(bytes);
      port.WriteR0(Driver.R0Value(n, n < 4));
      ghost var sized := port.sys;
      ReachesKeeps(old(port.sys), sized);
      port.WriteR1(OnBus(Htonl(endian, word)));
      ReachesTrans(old(port.sys), sized, port.sys);
    }

    /** Sends the buffer, looking at FULL at most `looks` times; `sent` counts the bytes. Every look
        that finds room is followed by a word, and it stops early only when everything is sent. */
    method SendAll(chunk: Driver.Chunk, looks: nat) returns (sent: nat)
      requires chunk.Readable() && Room(port.sys) && port.sys.pushed == []
      modifies port
      ensures Reaches(old(port.sys), port.sys)
      ensures Driver.Boundary(chunk, sent)
      ensures Payloads(true, port.sys.pushed) == AfpgaPayloads(chunk.Bytes()[..sent])
      ensures old(port.log) <= port.log
      ensures var seg := Since(old(port.log), port.log);
        && LooksIn(seg) <= looks && (sent < chunk.size ==> LooksIn(seg) == looks)
        && Progress(chunk, seg, LooksIn(seg), sent) && |port.sys.pushed| == RoomyIn(seg)
    {
      hide Reaches, Payloads, AfpgaPayloads, Driver.R0Value, Progress, LooksIn, RoomyIn;
      sent := 0;
      NothingSent(chunk);
      ReachesSelf(port.sys);
      assert Since(port.log, port.log) == [];
      NoLooks(chunk);
      for k := 0 to looks
        invariant Driver.Boundary(chunk, sent)
        invariant Reaches(old(port.sys), port.sys)
        invariant Payloads(true, port.sys.pushed) == AfpgaPayloads(chunk.Bytes()[..sent])
        invariant old(port.log) <= port.log
        invariant Progress(chunk, Since(old(port.log), port.log), k, sent)
        invariant |port.sys.pushed| == RoomyIn(Since(old(port.log), port.log))
      {
        Looked(chunk, Since(old(port.log), port.log), k, sent);
        if sent == chunk.size {
          return;
        }
        ghost var before, seg := port.sys, Since(old(port.log), port.log);
        var full := port.ReadFifoFull();
        ghost var waiting := |port.sys.q|;
        ReachesTrans(old(port.sys), before, port.sys);
        if !full {
          ReachesKeeps(old(port.sys), port.sys);
          before := port.sys;
          var n := if chunk.size - sent > 4 then 4 else chunk.size - sent;
          ghost var r0, r1 := Driver.R0Value(n, n < 4), chunk.memory[sent..sent + 4];
          SendWord(chunk.memory, sent, n);
          ReachesTrans(old(port.sys), before, port.sys);
          OneMoreWord(chunk, sent, n, before.pushed);
          WordSent(chunk, seg, k, sent, waiting, r0, r1);
          assert Since(old(port.log), port.log) == seg + [SawFifo(waiting), WroteR0(r0), WroteR1(r1)];
          sent := sent + n;
        } else {
          LookedInVain(chunk, seg, k, sent, waiting);
          assert Since(old(port.log), port.log) == seg + [SawFifo(waiting)];
        }
      }
      Looked(chunk, Since(old(port.log), port.log), looks, sent);
    }

    method StartLoader() returns (ghost enabled: bool)
      requires port.sys.q == []
      modifies port
      ensures Started(port.sys) && Room(port.sys) && Honest(port.sys.ld, port.sys.doneSeen)
      ensures Driver.StartedBy(port.sys, enabled)
      ensures port.log == old(port.log) + OPENING
    {
      hide Coherent, Honest, Reaches, AfterCsr, Driver.StartedBy;
      ghost var initial := port.sys;
      ghost var ignored := port.WriteCsr(Driver.CSR_SWRST);
      ghost var reset := port.sys;
      Driver.AfterSwrst(initial, ignored, reset);
      enabled := port.WriteCsr(Driver.CSR_START);
      Driver.AfterStart(reset, enabled, port.sys);
    }

    /** Polls CSR.DONE and gives the bus to the Application FPGA once it is set. `last` is the
        hardware state at the end, before the EXIT write if there is one. */
    method AwaitDone(polls: nat) returns (outcome: Outcome, ghost last: Sys)
      modifies port
      ensures Reaches(old(port.sys), last) && last.pushed == old(port.sys.pushed)
      ensures outcome.Returned? ==>
        && last.ld.csrDone && outcome.value == (if last.ld.csrError then -1 else 0)
        && exists enabled :: AfterCsr(last, Driver.CSR_EXIT, enabled, port.sys)
      ensures outcome.StillPolling? ==> port.sys == last && (polls > 0 ==> !last.ld.csrDone)
      ensures old(port.log) <= port.log && PolledLog(Since(old(port.log), port.log), outcome, polls)
    {
      hide Reaches, AfterCsr;
      last := port.sys;
      ReachesSelf(last);
      for k := 0 to polls
        invariant Reaches(old(port.sys), port.sys) && port.sys.pushed == old(port.sys.pushed) && last == port.sys
        invariant old(port.log) <= port.log && Reads(Since(old(port.log), port.log), false)
        invariant |Since(old(port.log), port.log)| == k
        invariant k > 0 ==> !last.ld.csrDone
      {
        var done, error := port.ReadCsr();
        ReachesTrans(old(port.sys), last, port.sys);
        last := port.sys;
        if done {
          ghost var seg := Since(old(port.log), port.log);
          ghost var enabled := port.WriteCsr(Driver.CSR_EXIT);
          assert Since(old(port.log), port.log) == seg + [WroteCsr(Driver.CSR_EXIT)];
          return Returned(if error then -1 else 0), last;
        }
      }
      return StillPolling, last;
    }

    /** `started` is the hardware state after START, `last` the one at the end, before the EXIT write
        if there is one. The tool goes on polling only because its looks or its polls are used up. */
    method ProgramAfpga(chunk: Driver.Chunk, looks: nat, polls: nat)
      returns (outcome: Outcome, ghost started: Sys, ghost last: Sys, ghost enabled: bool)
      requires chunk.Readable() && port.sys.q == []
      modifies port
      ensures Started(started) && Driver.StartedBy(started, enabled) && Reaches(started, last)
      ensures last.wire <= Bits(chunk.Bytes())
      ensures outcome.Returned? ==>
        && Payloads(true, last.pushed) == AfpgaPayloads(chunk.Bytes())
        && last.ld.csrDone && (outcome.value == if last.ld.csrError then -1 else 0)
        && exists left :: AfterCsr(last, Driver.CSR_EXIT, left, port.sys)
      ensures outcome == Returned(0) ==>
        && last.doneSeen
        && (last.ld.fsm.GotDone? || (last.wire == Bits(chunk.Bytes()) && chunk.size % 4 != 0))
      ensures outcome.Returned? && chunk.size % 4 == 0 && enabled ==> LateDone.EndsBetween(started, last)
      ensures outcome.StillPolling? ==> port.sys == last
      ensures old(port.log) <= port.log
      ensures ProgramLog(Since(old(port.log), port.log), chunk, outcome, looks, polls)
    {
      hide Coherent, Accounted, Honest, Reaches, Payloads, AfpgaPayloads, Bits, LateDone.EndsBetween, AfterCsr;
      hide Pushing, LooksIn, RoomyIn, PolledLog, ProgramLog, Sent;
      enabled := StartLoader();
      started := port.sys;
      ghost var begun := port.log;
      var sent := SendAll(chunk, looks);
      ghost var loaded, filled := port.sys, port.log;
      ReachesKeeps(started, loaded);
      if sent < chunk.size {
        AfpgaWire(loaded, chunk, sent);
        assert Since(filled, filled) == [];
        ProgramEnds(old(port.log), begun, filled, filled, chunk, StillPolling, looks, polls);
        return StillPolling, started, loaded, enabled;
      }
      outcome, last := AwaitDone(polls);
      ProgramEnds(old(port.log), begun, filled, port.log, chunk, outcome, looks, polls);
      ReachesTrans(started, loaded, last);
      ReachesKeeps(loaded, last);
      AfpgaWire(last, chunk, sent);
      HonestMeans(last);
      assert chunk.Bytes()[..sent] == chunk.Bytes();
      AfpgaSuccess(last, chunk.Bytes());
      if outcome.Returned? && chunk.size % 4 == 0 && enabled {
        LateDone.ReportedAfterEnd(started, last, chunk.Bytes());
      }
    }
  }

  // ---- the tool's accesses ----

  function One(b: bool): nat { if b then 1 else 0 }

  /** Looks at FIFO_CSR. */
  function LooksIn(seg: seq<Access>): nat {
    if seg == [] then 0 else LooksIn(seg[..|seg| - 1]) + One(seg[|seg| - 1].SawFifo?)
  }

  /** Those that found room. */
  function RoomyIn(seg: seq<Access>): nat {
    if seg == [] then 0
    else
      var a := seg[|seg| - 1];
      RoomyIn(seg[..|seg| - 1]) + One(a.SawFifo? && a.waiting < FIFO_SIZE)
  }

  /** Bytes sent with that many words. */
  function Sent(chunk: Driver.Chunk, words: nat): nat { if 4 * words < chunk.size then 4 * words else chunk.size }

  /** `looked` looks, and after each that found room a word; nothing after the last word. */
  predicate Progress(chunk: Driver.Chunk, seg: seq<Access>, looked: nat, sent: nat) {
    && Pushing(seg) && LooksIn(seg) == looked && sent == Sent(chunk, RoomyIn(seg))
    && (sent == chunk.size ==> seg == [] || seg[|seg| - 1].WroteR1?)
  }

  lemma NoLooks(chunk: Driver.Chunk)
    ensures Progress(chunk, [], 0, 0) && RoomyIn([]) == 0
  {
  }

  lemma Looked(chunk: Driver.Chunk, seg: seq<Access>, looked: nat, sent: nat)
    requires Progress(chunk, seg, looked, sent)
    ensures LooksIn(seg) == looked
  {
  }

  lemma OneMoreAccess(seg: seq<Access>, a: Access)
    ensures LooksIn(seg + [a]) == LooksIn(seg) + One(a.SawFifo?)
    ensures RoomyIn(seg + [a]) == RoomyIn(seg) + One(a.SawFifo? && a.waiting < FIFO_SIZE)
    ensures Pushing(seg) && (a.SawFifo? || a.WroteR0? || a.WroteR1?) ==> Pushing(seg + [a])
  {
    assert (seg + [a])[..|seg|] == seg;
  }

  lemma WordSent(chunk: Driver.Chunk, seg: seq<Access>, looked: nat, sent: nat, waiting: nat, r0: nat, r1: Word)
    requires Progress(chunk, seg, looked, sent) && waiting < FIFO_SIZE && sent < chunk.size
    ensures var now := seg + [SawFifo(waiting), WroteR0(r0), WroteR1(r1)];
      && Progress(chunk, now, looked + 1, sent + if chunk.size - sent > 4 then 4 else chunk.size - sent)
      && RoomyIn(now) == RoomyIn(seg) + 1
  {
    hide LooksIn, RoomyIn, Pushing;
    var seen, sized := seg + [SawFifo(waiting)], seg + [SawFifo(waiting)] + [WroteR0(r0)];
    OneMoreAccess(seg, SawFifo(waiting));
    OneMoreAccess(seen, WroteR0(r0));
    OneMoreAccess(sized, WroteR1(r1));
    assert seg + [SawFifo(waiting), WroteR0(r0), WroteR1(r1)] == sized + [WroteR1(r1)];
  }

  lemma LookedInVain(chunk: Driver.Chunk, seg: seq<Access>, looked: nat, sent: nat, waiting: nat)
    requires Progress(chunk, seg, looked, sent) && waiting >= FIFO_SIZE && sent < chunk.size
    ensures var now := seg + [SawFifo(waiting)];
      Progress(chunk, now, looked + 1, sent) && RoomyIn(now) == RoomyIn(seg)
  {
    hide LooksIn, RoomyIn, Pushing;
    OneMoreAccess(seg, SawFifo(waiting));
  }

  /** The polls, all of them in vain but the last if there is a result, which EXIT then follows. */
  predicate PolledLog(seg: seq<Access>, outcome: Outcome, polls: nat) {
    if outcome.Returned? then
      && seg != [] && seg[|seg| - 1] == WroteCsr(Driver.CSR_EXIT)
      && Reads(seg[..|seg| - 1], true) && |seg| - 1 <= polls
    else
      Reads(seg, false) && |seg| == polls
  }

  const OPENING: seq<Access> := [WroteCsr(Driver.CSR_SWRST), WroteCsr(Driver.CSR_START)]

  /** The words, and the polls once everything is sent. */
  predicate SentAndPolled(words: seq<Access>, rest: seq<Access>, chunk: Driver.Chunk,
                          outcome: Outcome, looks: nat, polls: nat) {
    && LooksIn(words) <= looks && Progress(chunk, words, LooksIn(words), Sent(chunk, RoomyIn(words)))
    && if Sent(chunk, RoomyIn(words)) < chunk.size then outcome.StillPolling? && rest == [] && LooksIn(words) == looks
       else PolledLog(rest, outcome, polls)
  }

  /** All accesses of `program_afpga`. */
  ghost predicate ProgramLog(seg: seq<Access>, chunk: Driver.Chunk, outcome: Outcome, looks: nat, polls: nat) {
    exists words, rest :: seg == OPENING + words + rest && SentAndPolled(words, rest, chunk, outcome, looks, polls)
  }

  lemma ProgramEnds(was: seq<Access>, begun: seq<Access>, filled: seq<Access>, now: seq<Access>,
                    chunk: Driver.Chunk, outcome: Outcome, looks: nat, polls: nat)
    requires begun == was + OPENING && begun <= filled <= now
    requires SentAndPolled(Since(begun, filled), Since(filled, now), chunk, outcome, looks, polls)
    ensures was <= now && ProgramLog(Since(was, now), chunk, outcome, looks, polls)
  {
    hide SentAndPolled, OPENING;
    var words, rest := Since(begun, filled), Since(filled, now);
    assert Since(was, now) == OPENING + words + rest;
  }

  lemma HonestMeans(s: Sys)
    requires Honest(s.ld, s.doneSeen)
    ensures s.ld.csrDone && !s.ld.csrError ==> s.doneSeen
  {
  }

  lemma NothingSent(chunk: Driver.Chunk)
    requires chunk.Readable()
    ensures Payloads(true, []) == AfpgaPayloads(chunk.Bytes()[..0])
  {
  }

  lemma OneMoreWord(chunk: Driver.Chunk, i: nat, n: nat, was: seq<Entry>)
    requires chunk.Readable() && i % 4 == 0 && i < chunk.size
    requires n == if chunk.size - i > 4 then 4 else chunk.size - i
    requires Payloads(true, was) == AfpgaPayloads(chunk.Bytes()[..i])
    ensures Payloads(true, was + [Entry(chunk.memory[i..i + 4], n - 1, n < 4)]) == AfpgaPayloads(chunk.Bytes()[..i + n])
  {
    hide Payloads, AfpgaPayloads, PayloadOf;
    var e := Entry(chunk.memory[i..i + 4], n - 1, n < 4);
    PayloadsSnoc(true, was, e);
    var g := chunk.Bytes()[i..i + n];
    Driver.SameBytes(chunk, i, n);
    WordPayload(e, n);
    assert chunk.Bytes()[..i + n] == chunk.Bytes()[..i] + g;
    AfpgaStep(chunk.Bytes()[..i], g);
  }

  lemma WordPayload(e: Entry, n: nat)
    requires e.dsize == n - 1
    ensures PayloadOf(true, e) == Payload(e.word[..n], e.last)
  {
  }

  lemma AfpgaStep(bytes: seq<Byte>, g: Group)
    requires |bytes| % 4 == 0 && 1 <= |g| <= 4
    ensures AfpgaPayloads(bytes + g) == AfpgaPayloads(bytes) + [Payload(g, |g| < 4)]
  {
    hide Groups4, Marked;
    var gs := Groups4(bytes);
    Groups4Snoc(bytes, g);
    assert |bytes + g| % 4 == 0 <==> |g| == 4;
    AfpgaSnoc(gs, g, |g| < 4);
  }

  lemma AfpgaSnoc(gs: seq<Group>, g: Group, last: bool)
    ensures Unmarked(gs) + [Payload(g, last)] == if last then Marked(gs + [g]) else Unmarked(gs + [g])
  {
    assert (gs + [g])[..|gs|] == gs;
  }

  lemma AfpgaWire(t: Sys, chunk: Driver.Chunk, sent: nat)
    requires chunk.Readable() && sent <= chunk.size && Coherent(t) && t.msbf
    requires Payloads(true, t.pushed) == AfpgaPayloads(chunk.Bytes()[..sent])
    ensures t.wire <= Bits(chunk.Bytes())
  {
    hide Coherent;
    WireOfPushed(t);
    var bytes := chunk.Bytes()[..sent];
    ProducersAgree([bytes]);
    assert Flatten([bytes]) == bytes;
    BitsPrefix(bytes, chunk.Bytes());
  }

  /** A loader that reports success has sent everything, which takes an XLAST and so a size that
      is not a multiple of 4, or has seen DONE at a bit. */
  lemma AfpgaSuccess(t: Sys, bytes: seq<Byte>)
    requires Coherent(t) && Accounted(t) && t.msbf && Payloads(true, t.pushed) == AfpgaPayloads(bytes)
    ensures Finished(t) ==> t.wire == Bits(bytes) && |bytes| % 4 != 0
    ensures t.ld.csrDone && !t.ld.csrError ==> t.ld.fsm.GotDone? || (t.wire == Bits(bytes) && |bytes| % 4 != 0)
  {
    hide Coherent, Accounted, Finished, Complete, Payloads, AfpgaPayloads, Bits, Stream;
    HostEndToEnd.SuccessMeansFinished(t);
    if Finished(t) {
      FinishedComplete(t);
      AfpgaMarks(bytes);
      WireOfAll(t);
      HostEndToEnd.PoppedXlast(t);
      ProducersAgree([bytes]);
      OneChunk(bytes);
    }
  }

  lemma OneChunk(bytes: seq<Byte>)
    ensures Flatten([bytes]) == bytes
  {
    assert [bytes][1..] == [];
  }

  lemma AfpgaMarks(bytes: seq<Byte>)
    ensures LastOnlyAtEnd(AfpgaPayloads(bytes))
    ensures (exists p :: p in AfpgaPayloads(bytes) && p.last) ==> |bytes| % 4 != 0
  {
    XlastPlacement([bytes]);
    OneChunk(bytes);
    hide AfpgaPayloads;
  }
}
