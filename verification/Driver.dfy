/** The kernel driver's FPGA-manager operations. Each word is held back by one, so that the
    last one, whenever it turns out to be the last, can still be marked XLAST. */
module Driver {
  import opened Bytes
  import opened Serialiser
  import opened HostPath
  import opened Producers
  import opened Board
  import LoaderTiming
  import XilinxLoader

  const EIO := 5
  const ENXIO := 6
  const EBUSY := 16
  const EINVAL := 22

  type U32 = x: int | 0 <= x < 0x1_0000_0000

  /** The initial size -1, stored in a `uint32_t`. */
  const NO_WORD: U32 := 0xFFFF_FFFF

  const ALL_ONES: Word := [0xFF, 0xFF, 0xFF, 0xFF]
  const SIGNATURE: Word := [0x53, 0x56, 0x45, 0x43]
  const UNLOCK: seq<Byte> := [0xde, 0xad, 0xbe, 0xef, 0xca, 0xfe, 0xba, 0xbe]

  const CSR_SWRST := Csr(false, false, true, false, 0)
  const CSR_START := Csr(true, true, false, false, 0)
  const CSR_EXIT := Csr(false, false, false, true, 0)

  /** Conversion of a `uint32_t` to `ssize_t`, which has 64 or 32 bits. */
  function ToSsize(size: U32, wide: bool): int {
    if wide || size < 0x8000_0000 then size else size - 0x1_0000_0000
  }

  /** FIFO_R0: the size field in bits 1..0, XLAST in bit 2. */
  function R0Value(size: int, isLast: bool): (r0: nat)
    requires 1 <= size <= 4
    ensures r0 % 4 == size - 1 && (r0 / 4 % 2 == 1) == isLast
  {
    (size - 1) % 4 + if isLast then 4 else 0
  }

  /** A `write` call's buffer: `size` bytes, and whatever memory follows them. */
  datatype Chunk = Chunk(memory: seq<Byte>, size: nat) {
    /** The word-wise loads stay in mapped memory and the index fits an `int`. */
    predicate Readable() { (size + 3) / 4 * 4 <= |memory| && size < 0x8000_0000 }

    function Bytes(): seq<Byte>
      requires Readable()
    {
      memory[..size]
    }
  }

  /** Where the `write` loop can stand: at a word boundary or at the end. */
  predicate Boundary(chunk: Chunk, i: nat) {
    i <= chunk.size && (i % 4 == 0 || i == chunk.size)
  }

  class Device {
    const port: Port
    const endian: Endian
    const wide: bool
    var lastWord: Word
    var lastSize: U32
    /** The groups of bytes consumed by `write` calls since `write_init`. */
    ghost var groups: seq<Group>

    constructor (port: Port, endian: Endian, wide: bool)
      ensures this.port == port && this.endian == endian && this.wide == wide
    {
      this.port, this.endian, this.wide := port, endian, wide;
      lastWord, lastSize, groups := ALL_ONES, NO_WORD, [];
    }

    /** The bytes of the word that is still held back. */
    ghost function Pending(): seq<Group>
      reads this
    {
      HeldGroup(Htonl(endian, lastWord), lastSize)
    }

    /** The one-word delay: what was pushed, then the pending word, is exactly what was
        consumed; and the pending size is "none" or 1 to 4. */
    ghost predicate Delayed()
      reads this, port
    {
      && Room(port.sys)
      && ((lastSize == NO_WORD && groups == []) || 1 <= lastSize <= 4)
      && Payloads(true, port.sys.pushed) + Unmarked(Pending()) == Unmarked(groups)
    }

    /** -EBUSY means that all 10001 looks, and so the last one, found the FIFO full. */
    method WriteWord(word: Word, size: int, isLast: bool) returns (err: int)
      requires Room(port.sys)
      modifies port
      ensures Reaches(old(port.sys), port.sys) && old(port.log) <= port.log
      ensures err in {0, -EBUSY, -EINVAL} && (err == -EINVAL <==> size <= 0 || size >= 5)
      ensures err == -EINVAL ==> port.sys == old(port.sys) && port.log == old(port.log)
      ensures err == -EBUSY ==>
        && port.sys.pushed == old(port.sys.pushed)
        && |port.sys.q| >= FIFO_SIZE && GaveUp(Since(old(port.log), port.log))
      ensures err == 0 ==>
        && port.sys.pushed == old(port.sys.pushed) + [Entry(Htonl(endian, word), size - 1, isLast)]
        && WordWritten(Since(old(port.log), port.log), R0Value(size, isLast), Htonl(endian, word))
    {
      hide Reaches, Htonl, Looks;
      if size <= 0 || size >= 5 {
        ReachesSelf(port.sys);
        return -EINVAL;
      }
      var full := AwaitRoom();
      if full {
        return -EBUSY;
      }
      ghost var ready, looked := port.sys, port.log;
      ReachesKeeps(old(port.sys), ready);
      PushEntry(R0Value(size, isLast), Htonl(endian, word));
      ReachesTrans(old(port.sys), ready, port.sys);
      SinceTrans(old(port.log), looked, port.log);
      return 0;
    }

    method PushEntry(r0: nat, r1: Word)
      requires Room(port.sys) && port.sys.sawRoom
      modifies port
      ensures Reaches(old(port.sys), port.sys)
      ensures port.sys.pushed == old(port.sys.pushed) + [Entry(r1, r0 % 4, r0 / 4 % 2 == 1)]
      ensures port.log == old(port.log) + [WroteR0(r0), WroteR1(r1)]
    {
      port.WriteR0(r0);
      ghost var sized := port.sys;
      ReachesKeeps(old(port.sys), sized);
      port.WriteR1(r1);
      ReachesTrans(old(port.sys), sized, port.sys);
    }

    /** Looks at FULL until it is clear, at most 10001 times. */
    method AwaitRoom() returns (full: bool)
      modifies port
      ensures Reaches(old(port.sys), port.sys) && port.sys.pushed == old(port.sys.pushed)
      ensures old(port.log) <= port.log
      ensures var seg := Since(old(port.log), port.log);
        Looks(seg, full) && |seg| <= 10001 && (full ==> GaveUp(seg))
      ensures if full then |port.sys.q| >= FIFO_SIZE else port.sys.sawRoom
    {
      var tries := 10000;
      full := port.ReadFifoFull();
      while full && tries > 0
        invariant Reaches(old(port.sys), port.sys) && port.sys.pushed == old(port.sys.pushed)
        invariant old(port.log) <= port.log
        invariant 0 <= tries && |Since(old(port.log), port.log)| == 10001 - tries
        invariant Looks(Since(old(port.log), port.log), full)
        invariant full <==> |port.sys.q| >= FIFO_SIZE
        invariant !full ==> port.sys.sawRoom
        decreases tries
      {
        tries := tries - 1;
        ghost var before := port.sys;
        full := port.ReadFifoFull();
        ReachesTrans(old(port.sys), before, port.sys);
      }
    }

    method Reset()
      modifies port
      ensures Quiet(old(port.sys), port.sys)
      ensures port.log == old(port.log) + Triggers(UNLOCK)
    {
      ReachesSelf(port.sys);
      for i := 0 to 8
        invariant Quiet(old(port.sys), port.sys)
        invariant port.log == old(port.log) + Triggers(UNLOCK[..i])
      {
        ghost var before := port.sys;
        port.WriteBtrigr(UNLOCK[i]);
        QuietTrans(old(port.sys), before, port.sys);
        TriggersSnoc(UNLOCK, i);
      }
      assert UNLOCK[..8] == UNLOCK;
    }

    /** True exactly when the bootloader has answered with its signature. */
    method LoaderIsActive() returns (active: bool, ghost answered: bool)
      modifies port
      ensures Quiet(old(port.sys), port.sys)
      ensures active == answered
      ensures exists done, error :: port.log == old(port.log) + [SawCsr(done, error), SawIdr(answered)]
    {
      var done, error := port.ReadCsr();
      ghost var before := port.sys;
      var idr;
      idr, answered := port.ReadIdr();
      QuietTrans(old(port.sys), before, port.sys);
      active := idr == SIGNATURE;
      assert port.log == old(port.log) + [SawCsr(done, error), SawIdr(answered)];
    }

    /** Unlocks the bootloader, and starts the loader if and only if it answers. `enabled` says
        whether the START write found the bootloader on the bus. */
    method WriteStart() returns (err: int, ghost answered: bool, ghost enabled: bool)
      modifies port
      ensures err == if answered then 0 else -ENXIO
      ensures exists done, error :: port.log == old(port.log) + OpeningLog(done, error, answered)
      ensures !answered ==> Quiet(old(port.sys), port.sys)
      ensures answered ==> StartedBy(port.sys, enabled)
      ensures answered && Room(old(port.sys)) ==>
        && Coherent(port.sys) && Accounted(port.sys) && port.sys.msbf && port.sys.wire == [] && port.sys.popped == []
        && Honest(port.sys.ld, port.sys.doneSeen)
        && (old(port.sys).q == [] ==> Started(port.sys))
    {
      hide Reaches, Coherent, Accounted, Honest, AfterCsr, OpeningLog, Triggers, StartedBy;
      Reset();
      ghost var unlocked := port.sys;
      var active;
      active, answered := LoaderIsActive();
      ghost var done, error :|
        port.log == old(port.log) + Triggers(UNLOCK) + [SawCsr(done, error), SawIdr(answered)];
      OpeningGrows(old(port.log), done, error);
      QuietTrans(old(port.sys), unlocked, port.sys);
      enabled := false;
      if !active {
        return -ENXIO, answered, enabled;
      }
      ghost var idle := port.sys;
      ReachesKeeps(old(port.sys), idle);
      ghost var ignored := port.WriteCsr(CSR_SWRST);
      ghost var reset := port.sys;
      AfterSwrst(idle, ignored, reset);
      enabled := port.WriteCsr(CSR_START);
      AfterStart(reset, enabled, port.sys);
      return 0, answered, enabled;
    }

    method WriteInit() returns (err: int, ghost answered: bool, ghost enabled: bool)
      modifies this, port
      ensures err == if answered then 0 else -ENXIO
      ensures exists done, error :: port.log == old(port.log) + OpeningLog(done, error, answered)
      ensures !answered ==> Quiet(old(port.sys), port.sys)
      ensures answered ==> StartedBy(port.sys, enabled)
      ensures answered && Room(old(port.sys)) ==>
        Coherent(port.sys) && Accounted(port.sys) && Honest(port.sys.ld, port.sys.doneSeen)
      ensures lastWord == ALL_ONES && lastSize == NO_WORD && groups == []
      ensures answered && Room(old(port.sys)) && old(port.sys).q == [] ==> Started(port.sys) && Delayed()
    {
      lastWord, lastSize := ALL_ONES, NO_WORD;
      groups := [];
      err, answered, enabled := WriteStart();
    }

    /** Pushes the word held back. With nothing held back the size is refused and nothing is
        pushed, which both callers take for success. */
    method PushHeld(isLast: bool) returns (err: int)
      requires Delayed()
      modifies port
      ensures Reaches(old(port.sys), port.sys) && Room(port.sys) && old(port.log) <= port.log
      ensures err in {0, -EBUSY, -EINVAL} && (err == -EINVAL <==> lastSize == NO_WORD)
      ensures err == -EBUSY ==>
        && port.sys.pushed == old(port.sys.pushed)
        && |port.sys.q| >= FIFO_SIZE && GaveUp(Since(old(port.log), port.log))
      ensures err != -EBUSY ==>
        && Payloads(true, port.sys.pushed) == (if isLast then Marked(groups) else Unmarked(groups))
      ensures Pushing(Since(old(port.log), port.log))
    {
      hide Reaches, Room, Payloads, Unmarked, Marked, Htonl, Looks, R0Value, Pushing;
      ghost var was := port.sys;
      err := WriteWord(lastWord, ToSsize(lastSize, wide), isLast);
      ReachesKeeps(was, port.sys);
      if err != -EBUSY {
        HeldPushed(was.pushed, port.sys.pushed, Htonl(endian, lastWord), lastSize, groups, isLast);
      }
      WordPushes(Since(old(port.log), port.log));
    }

    method Hold(chunk: Chunk, i: nat, size: nat)
      requires chunk.Readable() && i % 4 == 0 && i < chunk.size
      requires size == if chunk.size - i > 4 then 4 else chunk.size - i
      modifies this`lastWord, this`lastSize
      ensures lastSize == size && Pending() == [chunk.Bytes()[i..i + size]]
    {
      var next := chunk.memory[i..i + 4];
      lastWord := LoadU32(endian, next);
      lastSize := size;
      DriverWordOrder(endian, next);
      SameBytes(chunk, i, size);
    }

    /** One turn of the `write` loop. */
    method WriteStep(chunk: Chunk, i: nat, ghost start: seq<Group>) returns (failed: bool, err: int, size: nat)
      requires chunk.Readable() && Boundary(chunk, i) && i < chunk.size
      requires Delayed() && (i > 0 ==> lastSize != NO_WORD)
      requires groups == start + Groups4(chunk.Bytes()[..i])
      modifies this, port
      ensures Reaches(old(port.sys), port.sys) && Delayed()
      ensures old(port.log) <= port.log && Pushing(Since(old(port.log), port.log))
      ensures size > 0 && Boundary(chunk, i + size)
      ensures failed ==>
        && err == -EBUSY && groups == old(groups)
        && |port.sys.q| >= FIFO_SIZE && GaveUp(Since(old(port.log), port.log))
      ensures !failed ==> lastSize != NO_WORD && groups == start + Groups4(chunk.Bytes()[..i + size])
    {
      hide Reaches, Payloads, Unmarked, Groups4, Pushing, GaveUp, Room;
      size := if chunk.size - i > 4 then 4 else chunk.size - i;
      err := PushHeld(false);
      failed := err != 0 && !(err == -EINVAL && i == 0);
      if !failed {
        Hold(chunk, i, size);
        TakeGroup(chunk, i, size, start, groups);
        groups := groups + Pending();
      }
    }

    /** Any `write` call, also one that gives up on a full FIFO, keeps the one-word delay. It gives
        up only after 10001 looks in a row that found the FIFO full. */
    method WriteBuf(chunk: Chunk) returns (err: int, ghost taken: nat)
      requires chunk.Readable() && Delayed()
      modifies this, port
      ensures Delayed() && Reaches(old(port.sys), port.sys)
      ensures old(port.log) <= port.log && Pushing(Since(old(port.log), port.log))
      ensures err == 0 || err == -EBUSY
      ensures err == -EBUSY ==> |port.sys.q| >= FIFO_SIZE && EndsGivenUp(Since(old(port.log), port.log))
      ensures taken <= chunk.size && (err == 0 <==> taken == chunk.size)
      ensures groups == old(groups) + Groups4(chunk.Bytes()[..taken])
    {
      hide Delayed, Reaches, Groups4, Pushing, GaveUp;
      assert Groups4(chunk.Bytes()[..0]) == [] by { EmptyGroups(); }
      var i := 0;
      ReachesSelf(port.sys);
      NothingPushed();
      assert Since(port.log, port.log) == [];
      while i < chunk.size
        invariant Boundary(chunk, i)
        invariant Delayed() && Reaches(old(port.sys), port.sys)
        invariant old(port.log) <= port.log && Pushing(Since(old(port.log), port.log))
        invariant i > 0 ==> lastSize != NO_WORD
        invariant groups == old(groups) + Groups4(chunk.Bytes()[..i])
      {
        ghost var was, logged := port.sys, port.log;
        var failed, stepErr, size := WriteStep(chunk, i, old(groups));
        ReachesTrans(old(port.sys), was, port.sys);
        SinceTrans(old(port.log), logged, port.log);
        PushingConcat(Since(old(port.log), logged), Since(logged, port.log));
        if failed {
          GivenUpEnds(Since(old(port.log), logged), Since(logged, port.log));
          return stepErr, i;
        }
        i := i + size;
      }
      return 0, i;
    }

    /** Ends the session: pushes the word held back with XLAST, waits for DONE, and in every outcome
        writes EXIT. `atExit` is the hardware state before that write. */
    method WriteStop(polls: nat) returns (err: int, ghost atExit: Sys)
      requires Delayed()
      modifies this, port
      ensures Reaches(old(port.sys), atExit)
      ensures exists enabled :: AfterCsr(atExit, CSR_EXIT, enabled, port.sys)
      ensures old(port.log) <= port.log && ClosingLog(Since(old(port.log), port.log), err, polls)
      ensures err == -EBUSY ==> atExit.pushed == old(port.sys.pushed) && |atExit.q| >= FIFO_SIZE
      ensures err != -EBUSY ==>
        && Payloads(true, atExit.pushed) == Marked(old(groups))
        && err == if polls > 0 && atExit.ld.csrError then -EINVAL
                  else if polls == 0 || !atExit.ld.csrDone then -EIO else 0
      ensures err == 0 && Honest(old(port.sys).ld, old(port.sys).doneSeen) ==> atExit.doneSeen
      ensures if err == -EBUSY then lastWord == old(lastWord) && lastSize == old(lastSize)
              else lastWord == ALL_ONES && lastSize == NO_WORD
    {
      hide Reaches, Pushing, GaveUp, Reads, Payloads, Marked, Unmarked, AfterCsr, ClosingLog;
      err := PushHeld(true);
      ghost var sent, logged := port.sys, port.log;
      if err == -EINVAL {
        err := 0;
      }
      if err == 0 {
        lastWord, lastSize := ALL_ONES, NO_WORD;
        var done, error := PollDone(polls);
        ReachesTrans(old(port.sys), sent, port.sys);
        ReachesKeeps(old(port.sys), port.sys);
        if !done {
          err := -EIO;
        }
        if error {
          err := -EINVAL;
        }
        ghost var polled := port.log;
        ClosedAfterPolls(old(port.log), logged, polled, polled + [WroteCsr(CSR_EXIT)], done, err, polls);
      } else {
        ClosedBusy(old(port.log), logged, logged + [WroteCsr(CSR_EXIT)], polls);
      }
      atExit := port.sys;
      ghost var enabled := port.WriteCsr(CSR_EXIT);
    }

    /** Reads the CSR until DONE is seen or the time is up; both results are those of the last read,
        and clear if there was none. */
    method PollDone(polls: nat) returns (done: bool, error: bool)
      modifies port
      ensures Reaches(old(port.sys), port.sys) && port.sys.pushed == old(port.sys.pushed)
      ensures old(port.log) <= port.log && Reads(Since(old(port.log), port.log), done)
      ensures |Since(old(port.log), port.log)| <= polls && (!done ==> |Since(old(port.log), port.log)| == polls)
      ensures if polls == 0 then !done && !error else done == port.sys.ld.csrDone && error == port.sys.ld.csrError
    {
      done, error := false, false;
      ReachesSelf(port.sys);
      for n := 0 to polls
        invariant Reaches(old(port.sys), port.sys) && port.sys.pushed == old(port.sys.pushed)
        invariant old(port.log) <= port.log && Reads(Since(old(port.log), port.log), false)
        invariant |Since(old(port.log), port.log)| == n
        invariant if n == 0 then !error else error == port.sys.ld.csrError && !port.sys.ld.csrDone
        invariant !done
      {
        ghost var before := port.sys;
        done, error := port.ReadCsr();
        ReachesTrans(old(port.sys), before, port.sys);
        if done {
          return;
        }
      }
    }
  }

  // ---- the driver's accesses ----

  /** All 10001 looks found the FIFO full. */
  predicate GaveUp(seg: seq<Access>) { |seg| == 10001 && Looks(seg, true) }

  predicate EndsGivenUp(seg: seq<Access>) { |seg| >= 10001 && GaveUp(seg[|seg| - 10001..]) }

  lemma GivenUpEnds(a: seq<Access>, b: seq<Access>)
    requires GaveUp(b)
    ensures EndsGivenUp(a + b)
  {
    assert (a + b)[|a|..] == b;
  }

  lemma StillEnds(a: seq<Access>, b: seq<Access>)
    requires EndsGivenUp(b)
    ensures EndsGivenUp(a + b)
  {
    assert (a + b)[|a + b| - 10001..] == b[|b| - 10001..];
  }

  /** A word: looks, the last of which finds room, then R0 and R1. */
  predicate WordWritten(seg: seq<Access>, r0: nat, r1: Word) {
    && 3 <= |seg| <= 10003 && Looks(seg[..|seg| - 2], false)
    && seg[|seg| - 2..] == [WroteR0(r0), WroteR1(r1)]
  }

  lemma WordPushes(seg: seq<Access>)
    requires seg == [] || GaveUp(seg) || exists r0, r1 :: WordWritten(seg, r0, r1)
    ensures Pushing(seg)
  {
    forall a | a in seg
      ensures a.SawFifo? || a.WroteR0? || a.WroteR1?
    {
      var k :| 0 <= k < |seg| && a == seg[k];
      if !(seg == [] || GaveUp(seg)) {
        var r0, r1 :| WordWritten(seg, r0, r1);
        if k >= |seg| - 2 {
          assert a == seg[|seg| - 2..][k - (|seg| - 2)];
        } else {
          assert a == seg[..|seg| - 2][k];
        }
      }
    }
  }

  lemma NothingPushed()
    ensures Pushing([])
  {
  }

  /** The magic sequence, a look at CSR and IDR, and only if the bootloader has answered SWRST and
      START. */
  function OpeningLog(done: bool, error: bool, answered: bool): seq<Access> {
    Triggers(UNLOCK) + [SawCsr(done, error), SawIdr(answered)] +
      if answered then [WroteCsr(CSR_SWRST), WroteCsr(CSR_START)] else []
  }

  lemma OpeningGrows(was: seq<Access>, done: bool, error: bool)
    ensures was + Triggers(UNLOCK) + [SawCsr(done, error), SawIdr(false)] == was + OpeningLog(done, error, false)
    ensures was + Triggers(UNLOCK) + [SawCsr(done, error), SawIdr(true)] + [WroteCsr(CSR_SWRST)] + [WroteCsr(CSR_START)]
      == was + OpeningLog(done, error, true)
  {
    hide Triggers, CSR_SWRST, CSR_START, UNLOCK;
  }

  /** The last word, if there is one, and the polls; the time is used up unless DONE is seen. */
  predicate PushedAndPolled(word: seq<Access>, looks: seq<Access>, done: bool, polls: nat) {
    Pushing(word) && Reads(looks, done) && |looks| <= polls && (!done ==> |looks| == polls)
  }

  /** The end of a session: in every outcome its last access is the one CSR write, EXIT. */
  ghost predicate ClosingLog(seg: seq<Access>, err: int, polls: nat) {
    && seg != [] && seg[|seg| - 1] == WroteCsr(CSR_EXIT)
    && var before := seg[..|seg| - 1];
    if err == -EBUSY then GaveUp(before)
    else exists word, looks, done ::
      && before == word + looks && PushedAndPolled(word, looks, done, polls)
      && (err == 0 ==> done) && (err == -EIO ==> !done)
  }

  lemma OpeningCsrs(done: bool, error: bool, answered: bool)
    ensures Csrs(OpeningLog(done, error, answered)) == if answered then [CSR_SWRST, CSR_START] else []
  {
    var probe := Triggers(UNLOCK) + [SawCsr(done, error), SawIdr(answered)];
    if answered {
      CsrsConcat(probe, [WroteCsr(CSR_SWRST)] + [WroteCsr(CSR_START)]);
      CsrsConcat([WroteCsr(CSR_SWRST)], [WroteCsr(CSR_START)]);
      CsrsSnoc([], CSR_SWRST);
      CsrsSnoc([], CSR_START);
      assert [] + [WroteCsr(CSR_SWRST)] == [WroteCsr(CSR_SWRST)] && [] + [WroteCsr(CSR_START)] == [WroteCsr(CSR_START)];
      assert [WroteCsr(CSR_SWRST)] + [WroteCsr(CSR_START)] == [WroteCsr(CSR_SWRST), WroteCsr(CSR_START)];
    } else {
      assert probe + [] == probe;
    }
    NoCsrs(probe);
    hide Csrs;
  }

  /** The closing writes CSR once, with EXIT. */
  lemma ClosingCsrs(seg: seq<Access>, err: int, polls: nat)
    requires ClosingLog(seg, err, polls)
    ensures Csrs(seg) == [CSR_EXIT]
  {
    hide Csrs;
    var before := seg[..|seg| - 1];
    assert seg == before + [WroteCsr(CSR_EXIT)];
    assert forall a :: a in before ==> !a.WroteCsr?;
    CsrsSnoc(before, CSR_EXIT);
  }

  lemma ClosedBusy(was: seq<Access>, full: seq<Access>, now: seq<Access>, polls: nat)
    requires was <= full && GaveUp(Since(was, full)) && now == full + [WroteCsr(CSR_EXIT)]
    ensures was <= now && ClosingLog(Since(was, now), -EBUSY, polls)
  {
    hide GaveUp, CSR_EXIT;
    assert Since(was, now)[..|Since(was, now)| - 1] == Since(was, full);
  }

  lemma ClosedAfterPolls(was: seq<Access>, sent: seq<Access>, polled: seq<Access>, now: seq<Access>,
                         done: bool, err: int, polls: nat)
    requires was <= sent <= polled && now == polled + [WroteCsr(CSR_EXIT)] && err != -EBUSY
    requires PushedAndPolled(Since(was, sent), Since(sent, polled), done, polls)
    requires (err == 0 ==> done) && (err == -EIO ==> !done)
    ensures was <= now && ClosingLog(Since(was, now), err, polls)
  {
    hide PushedAndPolled, CSR_EXIT;
    assert Since(was, now)[..|Since(was, now)| - 1] == Since(was, sent) + Since(sent, polled);
  }

  // ---- START, SWRST and EXIT ----

  /** What the START write leaves behind: the erase pulse under way, or an idle loader. */
  predicate StartedBy(s: Sys, enabled: bool) {
    && !s.ld.csrDone && !s.ld.csrError
    && if enabled then s.ld.fsm.ExtendProg? && !s.ld.programB else s.ld.fsm.Idle?
  }

  /** EXIT starts the startup clocks of a loader in GOT_DONE, and changes nothing in an idle one. */
  lemma ExitStartsUp(s: Sys, enabled: bool, t: Sys)
    requires AfterCsr(s, CSR_EXIT, enabled, t)
    ensures s.ld.fsm.GotDone? ==>
      t.ld.fsm.StartupCclk0? && t.ld.startupCount == 0 && t.ld.csrDone && !t.ld.csrError && t.clkDiv == 0
    ensures s.ld.fsm.Idle? ==>
      t.ld.fsm.Idle? && t.ld.csrDone == s.ld.csrDone && t.ld.csrError == s.ld.csrError
  {
    hide Reaches, Room;
    var before, pins :| Quiet(s, before) && t == Step(before, WriteCsr(CSR_EXIT, enabled, pins));
    var u := before.(msbf := CSR_EXIT.msbf, clkDiv := CSR_EXIT.clkDiv);
    var i := LoaderIn(u, false, false, true, pins);
    if before.ld.fsm.GotDone? {
      LoaderTiming.GotDoneLeaves(before.ld, i);
    } else if before.ld.fsm.Idle? {
      BeginTargets(before.ld, i);
      LoaderTiming.FlagMoves(before.ld, i);
    }
    hide XilinxLoader.Next, EdgeBits;
  }

  lemma AfterSwrst(s: Sys, enabled: bool, t: Sys)
    requires AfterCsr(s, CSR_SWRST, enabled, t)
    ensures t.ld.fsm.Idle? && !t.ld.csrDone && !t.ld.csrError && t.ld.programB
    ensures Room(s) ==> Room(t) && Coherent(t) && Honest(t.ld, t.doneSeen) && t.pushed == t.q
    ensures Room(s) && s.q == [] ==> t.q == []
  {
    var before, pins :| Quiet(s, before) && t == Step(before, WriteCsr(CSR_SWRST, enabled, pins));
    var u := before.(msbf := CSR_SWRST.msbf, clkDiv := CSR_SWRST.clkDiv);
    LoaderTiming.RestartedPins(before.ld, LoaderIn(u, false, true, false, pins));
    if Room(s) {
      ReachesKeeps(s, before);
      NewSessionCoherent(before, CSR_SWRST, enabled, pins);
      SwrstHonest(before, CSR_SWRST, enabled, pins);
    }
    hide XilinxLoader.Next, EdgeBits, Coherent, Honest, Reaches;
  }

  lemma AfterStart(s: Sys, enabled: bool, t: Sys)
    requires AfterCsr(s, CSR_START, enabled, t) && s.ld.fsm.Idle? && !s.ld.csrDone && !s.ld.csrError
    ensures StartedBy(t, enabled)
    ensures Room(s) && Honest(s.ld, s.doneSeen) ==>
      && Room(t) && Coherent(t) && Accounted(t) && t.msbf && t.wire == [] && t.popped == [] && t.pushed == t.q
      && Honest(t.ld, t.doneSeen) && (s.q == [] ==> t.q == [])
  {
    hide Quiet, Step, Room, Coherent, Accounted, Honest, StartedBy;
    var before, pins :| Quiet(s, before) && t == Step(before, WriteCsr(CSR_START, enabled, pins));
    StartMoves(s, before, enabled, pins);
    if Room(s) && Honest(s.ld, s.doneSeen) {
      StartKeeps(s, before, enabled, pins);
    }
  }

  lemma StartMoves(s: Sys, before: Sys, enabled: bool, pins: Pins)
    requires Quiet(s, before) && s.ld.fsm.Idle? && !s.ld.csrDone && !s.ld.csrError
    ensures StartedBy(Step(before, WriteCsr(CSR_START, enabled, pins)), enabled)
  {
    var u := before.(msbf := CSR_START.msbf, clkDiv := CSR_START.clkDiv);
    var i := LoaderIn(u, enabled, false, false, pins);
    BeginTargets(before.ld, i);
    LoaderTiming.BeginPins(before.ld, i);
    LoaderTiming.FlagMoves(before.ld, i);
    hide XilinxLoader.Next, EdgeBits, Reaches;
  }

  lemma StartKeeps(s: Sys, before: Sys, bootEn: bool, pins: Pins)
    requires Quiet(s, before) && Room(s) && s.ld.fsm.Idle? && !s.ld.csrDone && Honest(s.ld, s.doneSeen)
    ensures var t := Step(before, WriteCsr(CSR_START, bootEn, pins));
      && Room(t) && Coherent(t) && Accounted(t) && t.msbf && t.wire == [] && t.popped == [] && t.pushed == t.q
      && Honest(t.ld, t.doneSeen) && (s.q == [] ==> t.q == [])
  {
    ReachesKeeps(s, before);
    StartAccounted(before, bootEn, pins);
    NewSessionCoherent(before, CSR_START, bootEn, pins);
    StepHonest(before, WriteCsr(CSR_START, bootEn, pins));
    hide Edge, Coherent, Accounted, Honest;
  }

  lemma StartAccounted(s: Sys, bootEn: bool, pins: Pins)
    requires s.ld.fsm.Idle? && !s.ld.csrDone
    ensures Accounted(Step(s, WriteCsr(CSR_START, bootEn, pins)))
  {
    var t := Step(s, WriteCsr(CSR_START, bootEn, pins));
    assert t.popped == [] && !t.ld.csrDone && (t.ld.fsm.Idle? || t.ld.fsm.ExtendProg?);
  }

  /** The group a held word stands for; a size outside 1..4 means that none is held. */
  function HeldGroup(word: Word, size: int): seq<Group> {
    if 1 <= size <= 4 then [word[..size]] else []
  }

  /** Pushing the held word turns "pushed, then held" into "pushed". */
  lemma HeldPushed(was: seq<Entry>, now: seq<Entry>, word: Word, size: int, groups: seq<Group>, isLast: bool)
    requires Payloads(true, was) + Unmarked(HeldGroup(word, size)) == Unmarked(groups)
    requires 1 <= size <= 4 || groups == []
    requires now == if 1 <= size <= 4 then was + [Entry(word, size - 1, isLast)] else was
    ensures Payloads(true, now) == if isLast then Marked(groups) else Unmarked(groups)
  {
    if 1 <= size <= 4 {
      PayloadsSnoc(true, was, Entry(word, size - 1, isLast));
      var k := |groups| - 1;
      assert Unmarked(groups)[k] == Unmarked(HeldGroup(word, size))[0];
      assert Unmarked(groups)[..k] == Unmarked(groups[..k]) == Payloads(true, was);
    }
  }

  lemma EmptyGroups()
    ensures Groups4([]) == []
  {
  }

  lemma SameBytes(chunk: Chunk, i: nat, size: nat)
    requires chunk.Readable() && i + 4 <= |chunk.memory| && size <= 4 && i + size <= chunk.size
    ensures chunk.memory[i..i + 4][..size] == chunk.Bytes()[i..i + size]
  {
    var loaded, group := chunk.memory[i..i + 4][..size], chunk.Bytes()[i..i + size];
    assert |loaded| == |group| == size;
    forall k | 0 <= k < size
      ensures loaded[k] == group[k]
    {
      assert loaded[k] == chunk.memory[i + k] && group[k] == chunk.memory[i + k];
    }
  }

  lemma TakeGroup(chunk: Chunk, i: nat, size: nat, start: seq<Group>, groups: seq<Group>)
    requires chunk.Readable() && i % 4 == 0 && i < chunk.size
    requires size == if chunk.size - i > 4 then 4 else chunk.size - i
    requires groups == start + Groups4(chunk.Bytes()[..i])
    ensures groups + [chunk.Bytes()[i..i + size]] == start + Groups4(chunk.Bytes()[..i + size])
    ensures Unmarked(groups) + Unmarked([chunk.Bytes()[i..i + size]]) == Unmarked(groups + [chunk.Bytes()[i..i + size]])
  {
    hide Groups4;
    var g := chunk.Bytes()[i..i + size];
    assert chunk.Bytes()[..i + size] == chunk.Bytes()[..i] + g;
    Groups4Snoc(chunk.Bytes()[..i], g);
  }
}
