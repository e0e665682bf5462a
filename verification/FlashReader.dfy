/** The flash controller of the System FPGA: a fast-read sequencer over an SPI master, and the
    flash behind it. The SPI master is abstract: it drops `ready` in the cycle of `start` and
    finishes after any number of further cycles, at least one. */
module FlashReader {
  import opened Bytes
  import opened NorFlash

  datatype Fsm = Idle | Csel | Command | Addr0 | Addr1 | Addr2 | DummyXfer | Data

  datatype State = State(
    fsm: Fsm, spiCs: bool, spiStart: bool, spiWdata: Byte, readyInt: bool, data: Byte,
    startHost: bool, wdataHost: Byte)

  /** A FAR write strobe, with the XFER bit already registered. */
  datatype Far = NoFar | FarLoad(data: Byte, xfer: bool)

  datatype In = In(
    rstN: bool, far: Far, setAddr: bool, addr: Address, read: bool,
    spiReady: bool, spiRdata: Byte,
    dontCare: Byte)     // the value an undriven byte takes

  /** The next state of both processes. */
  function Next(s: State, i: In): State {
    ReadFsm(s, i).(startHost := i.rstN && i.far.FarLoad? && i.far.xfer,
                   wdataHost := if !i.rstN then 0 else if i.far.FarLoad? then i.far.data else s.wdataHost)
  }

  function ReadFsm(s: State, i: In): State {
    if !i.rstN then
      s.(fsm := Idle, spiStart := false, spiCs := false, spiWdata := 0, readyInt := true)
    else if i.far.FarLoad? then
      s.(fsm := Idle, spiStart := false, spiCs := false, spiWdata := 0)
    else
      match s.fsm
      case Idle =>
        if i.setAddr then s.(spiCs := false, spiStart := true, readyInt := false, fsm := Csel)
        else if i.read then s.(spiStart := true, readyInt := false, fsm := Data)
        else s.(spiStart := false, readyInt := true)
      case Csel => Send(s, i.spiReady, Command, FAST_READ).(spiCs := s.spiCs || i.spiReady)
      case Command => Send(s, i.spiReady, Addr0, i.addr / 65536)
      case Addr0 => Send(s, i.spiReady, Addr1, i.addr / 256 % 256)
      case Addr1 => Send(s, i.spiReady, Addr2, i.addr % 256)
      case Addr2 => Send(s, i.spiReady, DummyXfer, i.dontCare)
      case DummyXfer => s.(spiStart := false, fsm := if i.spiReady then Idle else DummyXfer)
      case Data =>
        s.(spiStart := false, readyInt := i.spiReady, fsm := if i.spiReady then Idle else Data,
           data := if i.spiReady then i.spiRdata else s.data)
  }

  /** Once the master is free, move on and start the next byte. */
  function Send(s: State, ready: bool, next: Fsm, byte: Byte): State {
    if ready then s.(fsm := next, spiWdata := byte, spiStart := true) else s.(spiStart := false)
  }

  /** `ready_o`, taken away early by a new request. */
  predicate Ready(s: State, setAddr: bool, read: bool) {
    s.readyInt && !(setAddr || read)
  }

  /** One cycle of reset, from any state: the sequencer is ready and asks for nothing. */
  lemma ResetRests(s: State, i: In)
    requires !i.rstN
    ensures var t := Next(s, i);
      && t.fsm.Idle? && t.readyInt && !t.spiStart && !t.spiCs && t.spiWdata == 0 && !t.startHost && t.wdataHost == 0
  {
  }

  /** A FAR write stops the sequencer in any state, and an idle sequencer without a request asks
      the SPI master for nothing. */
  lemma FarStops(s: State, i: In)
    requires i.rstN && (i.far.FarLoad? || (s.fsm.Idle? && !i.setAddr && !i.read))
    ensures var t := Next(s, i); t.fsm.Idle? && !t.spiStart
    ensures var t := Next(s, i); i.far.FarLoad? ==> !t.spiCs && t.spiWdata == 0 && t.wdataHost == i.far.data
    ensures Next(s, i).startHost <==> i.far.FarLoad? && i.far.xfer
  {
  }

  class Controller {
    var regs: State

    constructor (init: State)
      ensures regs == init
    {
      regs := init;
    }

    method Step(i: In)
      modifies this
      ensures regs == Next(old(regs), i)
    {
      var next := RunFsm(i);
      if !i.rstN {
        next := next.(startHost := false, wdataHost := 0);
      } else if i.far.FarLoad? {
        next := next.(wdataHost := i.far.data, startHost := i.far.xfer);
      } else {
        next := next.(startHost := false);
      }
      regs := next;
    }

    method RunFsm(i: In) returns (next: State)
      ensures next == ReadFsm(regs, i)
    {
      next := regs;
      if !i.rstN {
        next := next.(fsm := Idle, spiStart := false, spiCs := false, spiWdata := 0, readyInt := true);
        return;
      }
      if i.far.FarLoad? {
        next := next.(spiStart := false, spiCs := false, spiWdata := 0, fsm := Idle);
        return;
      }
      match regs.fsm {
        case Idle =>
          if i.setAddr {
            next := next.(spiCs := false, spiStart := true, readyInt := false, fsm := Csel);
          } else if i.read {
            next := next.(spiStart := true, readyInt := false, fsm := Data);
          } else {
            next := next.(spiStart := false, readyInt := true);
          }
        case Data =>
          next := next.(spiStart := false);
          if i.spiReady {
            next := next.(data := i.spiRdata, readyInt := true, fsm := Idle);
          } else {
            next := next.(readyInt := false);
          }
        case DummyXfer =>
          next := next.(spiStart := false);
          if i.spiReady {
            next := next.(fsm := Idle);
          }
        case _ =>
          next := Sequence(i);
      }
    }

    method Sequence(i: In) returns (next: State)
      requires regs.fsm in {Csel, Command, Addr0, Addr1, Addr2}
      requires i.rstN && i.far.NoFar?
      ensures next == ReadFsm(regs, i)
    {
      next := regs;
      if !i.spiReady {
        next := next.(spiStart := false);
        return;
      }
      match regs.fsm {
        case Csel => next := next.(fsm := Command, spiWdata := FAST_READ, spiCs := true);
        case Command => next := next.(fsm := Addr0, spiWdata := i.addr / 65536);
        case Addr0 => next := next.(fsm := Addr1, spiWdata := i.addr / 256 % 256);
        case Addr1 => next := next.(fsm := Addr2, spiWdata := i.addr % 256);
        case Addr2 => next := next.(fsm := DummyXfer, spiWdata := i.dontCare);
      }
      next := next.(spiStart := true);
    }
  }

  // ---- the controller, the SPI master and the flash together ----

  datatype Spi = Spi(busy: bool, cs: bool, wdata: Byte, rdata: Byte)

  datatype Reader = Reader(ctl: State, spi: Spi, chip: Chip)

  predicate SpiReady(r: Reader) {
    !r.spi.busy && !(r.ctl.spiStart || r.ctl.startHost)
  }

  /** One clock cycle; `finish` says that a running transfer ends now. The SPI master gets the
      host's and the sequencer's signals ORed together; a free master passes chip select on, so a
      FAR write without XFER and CS deselects the chip, which is then busy for `time` reads. */
  function HostCycle(r: Reader, far: Far, farCs: bool, setAddr: bool, addr: Address, read: bool,
                     finish: bool, dontCare: Byte, time: nat): Reader
    requires KnownSectorSize(r.chip.sectorSize)
  {
    var i := In(true, far, setAddr, addr, read, SpiReady(r), r.spi.rdata, dontCare);
    var ctl := Next(r.ctl, i);
    if !r.spi.busy then
      if r.ctl.spiStart || r.ctl.startHost then
        var wdata := Or8(r.ctl.wdataHost, r.ctl.spiWdata);
        Reader(ctl, r.spi.(busy := true, cs := farCs || r.ctl.spiCs, wdata := wdata), r.chip)
      else Reader(ctl, r.spi, if far.FarLoad? && !far.xfer && !farCs then Deselect(r.chip, time) else r.chip)
    else if !finish then Reader(ctl, r.spi, r.chip)
    else if r.spi.cs then
      Reader(ctl, r.spi.(busy := false, rdata := Reply(r.chip)), Exchange(r.chip, r.spi.wdata))
    else
      Reader(ctl, r.spi.(busy := false, rdata := 0xFF), Deselect(r.chip, 0))
  }

  /** A cycle without FAR access, the host's chip select at its reset value. */
  function Cycle(r: Reader, setAddr: bool, addr: Address, read: bool, finish: bool, dontCare: Byte): Reader
    requires KnownSectorSize(r.chip.sectorSize)
  {
    HostCycle(r, NoFar, false, setAddr, addr, read, finish, dontCare, 0)
  }

  /** What surrounds the SPI master in a cycle: the end of a running transfer, the value of
      undriven bytes, the Application FPGA's DONE pin, what MISO then shows, and the flash as
      the Application FPGA leaves it. */
  datatype Link = Link(finish: bool, dontCare: Byte, donePin: bool, miso: Byte, foreign: Chip)

  /** DONE is low: the flash is the System FPGA's. */
  predicate Connected(l: Link) { !l.donePin }

  /** DONE is high, and MISO is at the level `line`. */
  predicate Detached(l: Link, line: Byte) { l.donePin && l.miso == line }

  /** The board's flash multiplexer: while DONE is high the flash belongs to the Application
      FPGA, and a transfer of the System FPGA only samples MISO. */
  function Wired(r: Reader, setAddr: bool, addr: Address, read: bool, l: Link): Reader
    requires KnownSectorSize(r.chip.sectorSize)
  {
    var t := Cycle(r, setAddr, addr, read, l.finish, l.dontCare);
    if !l.donePin then t
    else
      Reader(t.ctl, if r.spi.busy && l.finish then t.spi.(rdata := l.miso) else t.spi,
             l.foreign.(sectorSize := r.chip.sectorSize))
  }

  /** No host access so far; the flash is idle, deselected or reading. */
  predicate Quiet(r: Reader) {
    && !r.ctl.startHost && r.ctl.wdataHost == 0
    && KnownSectorSize(r.chip.sectorSize) && r.chip.busy == 0 && !r.chip.wel
    && (r.chip.rx != [] ==> r.chip.rx[0] == FAST_READ)
  }

  /** Ready for a request. */
  predicate Resting(r: Reader) {
    Quiet(r) && r.ctl.fsm.Idle? && r.ctl.readyInt && !r.ctl.spiStart && !r.spi.busy
  }

  /** The flash has received the fast-read command for `a` and given `n` bytes. */
  predicate Streaming(c: Chip, a: Address, n: nat) {
    |c.rx| == 5 + n && c.rx[..4] == [FAST_READ] + AddressBytes(a)
  }

  /** The transfer of `b` after `before` is due, running, or over. */
  predicate Sending(r: Reader, before: seq<Byte>, b: Byte) {
    && r.ctl.spiCs
    && if r.ctl.spiStart then !r.spi.busy && r.ctl.spiWdata == b && r.chip.rx == before
       else if r.spi.busy then r.spi.cs && r.spi.wdata == b && r.chip.rx == before
       else r.chip.rx == before + [b]
  }

  /** On the way from a set-address request for `a` to a flash that streams from `a`. */
  predicate Seeking(r: Reader, a: Address) {
    && Quiet(r) && !r.ctl.readyInt
    && var sent := [FAST_READ] + AddressBytes(a);
       match r.ctl.fsm
       case Idle => r.ctl.spiCs && !r.ctl.spiStart && !r.spi.busy && Streaming(r.chip, a, 0)
       case Csel =>
         && !r.ctl.spiCs
         && if r.ctl.spiStart then !r.spi.busy
            else if r.spi.busy then !r.spi.cs
            else r.chip.rx == []
       case Command => Sending(r, [], FAST_READ)
       case Addr0 => Sending(r, sent[..1], sent[1])
       case Addr1 => Sending(r, sent[..2], sent[2])
       case Addr2 => Sending(r, sent[..3], sent[3])
       case DummyXfer =>
         && r.ctl.spiCs
         && (if r.ctl.spiStart then !r.spi.busy && r.chip.rx == sent
             else if r.spi.busy then r.spi.cs && r.chip.rx == sent
             else Streaming(r.chip, a, 0))
       case Data => false
  }

  /** On the way from a read request to its answer, byte `n` of the stream from `a`. */
  predicate Fetching(r: Reader, a: Address, n: nat) {
    && Quiet(r) && r.ctl.fsm.Data? && !r.ctl.readyInt && r.ctl.spiCs
    && if r.ctl.spiStart then !r.spi.busy && Streaming(r.chip, a, n)
       else if r.spi.busy then r.spi.cs && Streaming(r.chip, a, n)
       else Streaming(r.chip, a, n + 1) && r.spi.rdata == r.chip.mem[(a + n) % FLASH_SIZE]
  }

  /** Chip select stays active once the command has been sent. */
  predicate Selected(r: Reader, a: Address, n: nat) {
    Resting(r) && r.ctl.spiCs && Streaming(r.chip, a, n)
  }

  /** A set-address request starts the sequence, whatever was going on with the flash. */
  lemma SeekStarts(r: Reader, a: Address, read: bool, finish: bool, dontCare: Byte)
    requires Resting(r)
    ensures Seeking(Cycle(r, true, a, read, finish, dontCare), a)
    ensures !Ready(r.ctl, true, read)
  {
  }

  lemma StreamReply(c: Chip, a: Address, n: nat)
    requires Streaming(c, a, n) && c.busy == 0
    ensures Reply(c) == c.mem[(a + n) % FLASH_SIZE]
    ensures Streaming(Exchange(c, 0), a, n + 1)
    ensures forall b :: Streaming(Exchange(c, b), a, n + 1) && Exchange(c, b).busy == 0
  {
    AddressRoundTrip(a);
    assert c.rx[0] == c.rx[..4][0] && c.rx[1..4] == c.rx[..4][1..] == AddressBytes(a);
  }

  /** Deselect, 0x0B, three address bytes, a dummy: each step of the sequence, for any latency. */
  lemma SeekStep(r: Reader, a: Address, finish: bool, dontCare: Byte)
    requires Seeking(r, a)
    ensures var t := Cycle(r, false, a, false, finish, dontCare);
      Seeking(t, a) || Selected(t, a, 0)
    ensures !Ready(r.ctl, false, false)
  {
    OrZero(r.ctl.spiWdata);
    match r.ctl.fsm
    case Idle =>
    case Csel => SeekCsel(r, a, finish, dontCare);
    case DummyXfer => SeekDummy(r, a, finish, dontCare);
    case _ => SeekByte(r, a, finish, dontCare);
  }

  lemma SeekCsel(r: Reader, a: Address, finish: bool, dontCare: Byte)
    requires Seeking(r, a) && r.ctl.fsm.Csel?
    ensures Seeking(Cycle(r, false, a, false, finish, dontCare), a)
  {
  }

  lemma SeekDummy(r: Reader, a: Address, finish: bool, dontCare: Byte)
    requires Seeking(r, a) && r.ctl.fsm.DummyXfer?
    ensures Seeking(Cycle(r, false, a, false, finish, dontCare), a)
  {
  }

  lemma SeekByte(r: Reader, a: Address, finish: bool, dontCare: Byte)
    requires Seeking(r, a) && r.ctl.fsm in {Command, Addr0, Addr1, Addr2}
    ensures Seeking(Cycle(r, false, a, false, finish, dontCare), a)
  {
    OrZero(r.ctl.spiWdata);
  }

  /** A read request on a streaming flash. */
  lemma FetchStarts(r: Reader, a: Address, n: nat, addr: Address, finish: bool, dontCare: Byte)
    requires Selected(r, a, n)
    ensures Fetching(Cycle(r, false, addr, true, finish, dontCare), a, n)
    ensures !Ready(r.ctl, false, true)
  {
  }

  /** For any latency, the answer to the n-th read is the flash's byte a + n, and `ready`
      stays low until it is there. */
  lemma FetchStep(r: Reader, a: Address, n: nat, addr: Address, finish: bool, dontCare: Byte)
    requires Fetching(r, a, n)
    ensures var t := Cycle(r, false, addr, false, finish, dontCare);
      Fetching(t, a, n) || (Selected(t, a, n + 1) && t.ctl.data == r.chip.mem[(a + n) % FLASH_SIZE])
    ensures !Ready(r.ctl, false, false)
  {
    if r.spi.busy {
      StreamReply(r.chip, a, n);
    }
  }

  /** Without a request nothing moves. */
  lemma RestStep(r: Reader, addr: Address, finish: bool, dontCare: Byte)
    requires Resting(r)
    ensures Cycle(r, false, addr, false, finish, dontCare) == r
    ensures Ready(r.ctl, false, false)
  {
  }

  // ---- the host's window: one FAR write is one byte on the SPI bus ----

  /** The host's byte is due, on its way, or exchanged; the sequencer rests. */
  predicate HostByte(r: Reader, c: Chip, cs: bool, data: Byte)
    requires KnownSectorSize(c.sectorSize)
  {
    && r.ctl.fsm.Idle? && !r.ctl.spiStart && !r.ctl.spiCs && r.ctl.spiWdata == 0
    && if r.ctl.startHost then !r.spi.busy && r.ctl.wdataHost == data && r.chip == c
       else if r.spi.busy then r.spi.cs == cs && r.spi.wdata == data && r.chip == c
       else r.spi.rdata == (if cs then Reply(c) else 0xFF) && r.chip == if cs then Exchange(c, data) else Deselect(c, 0)
  }

  /** Writing FAR with the XFER bit starts the transfer and stops the sequencer, whatever it
      was about to do, provided the SPI master is free. */
  lemma HostStarts(r: Reader, data: Byte, cs: bool, setAddr: bool, addr: Address, read: bool, finish: bool,
                   dontCare: Byte)
    requires KnownSectorSize(r.chip.sectorSize) && SpiReady(r)
    ensures var t := HostCycle(r, FarLoad(data, true), cs, setAddr, addr, read, finish, dontCare, 0);
      HostByte(t, r.chip, cs, data) && !SpiReady(t)
  {
  }

  /** Writing FAR without the XFER bit only sets chip select; clearing it is when the chip carries
      out the command it has received. */
  lemma HostSelects(r: Reader, data: Byte, cs: bool, setAddr: bool, addr: Address, read: bool, finish: bool,
                    dontCare: Byte, time: nat)
    requires KnownSectorSize(r.chip.sectorSize) && SpiReady(r)
    ensures var t := HostCycle(r, FarLoad(data, false), cs, setAddr, addr, read, finish, dontCare, time);
      t.chip == (if cs then r.chip else Deselect(r.chip, time)) && SpiReady(t)
  {
  }

  /** For any latency the transfer exchanges exactly that byte, with the chip select of the FAR
      register, and FAR.READY comes back only with the answer in FAR.DATA. */
  lemma HostKeeps(r: Reader, c: Chip, cs: bool, data: Byte, addr: Address, finish: bool, dontCare: Byte)
    requires KnownSectorSize(r.chip.sectorSize) && KnownSectorSize(c.sectorSize) && HostByte(r, c, cs, data)
    ensures HostByte(HostCycle(r, NoFar, cs, false, addr, false, finish, dontCare, 0), c, cs, data)
    ensures SpiReady(r) ==>
      r.spi.rdata == (if cs then Reply(c) else 0xFF) && r.chip == if cs then Exchange(c, data) else Deselect(c, 0)
  {
    OrZeroRight(data);
  }

  // ---- the sequencer alone, whatever the flash does ----

  /** Requests are made to an idle sequencer, and `ready` means idle. */
  predicate Orderly(c: State, request: bool) {
    !c.startHost && (c.readyInt || request ==> c.fsm.Idle?)
  }

  function StatesLeft(f: Fsm): nat {
    match f
    case Csel => 6 case Command => 5 case Addr0 => 4 case Addr1 => 3 case Addr2 => 2
    case DummyXfer => 1 case Data => 1 case Idle => 0
  }

  /** Steps until `ready`, not counting the cycles a transfer takes. */
  function StepsLeft(r: Reader): nat {
    if r.ctl.fsm.Idle? then if r.ctl.readyInt then 0 else 1
    else 4 * StatesLeft(r.ctl.fsm) + if r.ctl.spiStart then 3 else if r.spi.busy then 2 else 1
  }

  lemma OrderlyStep(r: Reader, setAddr: bool, addr: Address, read: bool, l: Link)
    requires KnownSectorSize(r.chip.sectorSize) && Orderly(r.ctl, setAddr || read)
    ensures var t := Wired(r, setAddr, addr, read, l);
      && Orderly(t.ctl, false)
      && (r.ctl.fsm.Idle? && !setAddr && !read ==> t.ctl.fsm.Idle? && t.ctl.readyInt)
    ensures Ready(r.ctl, setAddr, read) <==> !setAddr && !read && StepsLeft(r) == 0
  {
    match r.ctl.fsm
    case Idle =>
    case Csel =>
    case Command =>
    case Addr0 =>
    case Addr1 =>
    case Addr2 =>
    case DummyXfer =>
    case Data =>
  }

  /** A cycle takes the answer a step nearer, unless a transfer runs on. */
  predicate Nearer(r: Reader, l: Link, t: Reader) {
    if r.spi.busy && !l.finish then StepsLeft(t) <= StepsLeft(r) else StepsLeft(t) == 0 || StepsLeft(t) < StepsLeft(r)
  }

  lemma SendingDrops(r: Reader, addr: Address, l: Link)
    requires KnownSectorSize(r.chip.sectorSize) && Orderly(r.ctl, false)
    requires r.ctl.fsm.Csel? || r.ctl.fsm.Command? || r.ctl.fsm.Addr0? || r.ctl.fsm.Addr1? || r.ctl.fsm.Addr2?
    ensures Nearer(r, l, Wired(r, false, addr, false, l))
  {
    match r.ctl.fsm
    case Csel =>
    case Command =>
    case Addr0 =>
    case Addr1 =>
    case Addr2 =>
  }

  lemma WaitingDrops(r: Reader, addr: Address, l: Link)
    requires KnownSectorSize(r.chip.sectorSize) && Orderly(r.ctl, false)
    requires r.ctl.fsm.DummyXfer? || r.ctl.fsm.Data?
    ensures Nearer(r, l, Wired(r, false, addr, false, l))
  {
    match r.ctl.fsm
    case DummyXfer =>
    case Data =>
  }

  lemma IdleDrops(r: Reader, setAddr: bool, addr: Address, read: bool, l: Link)
    requires KnownSectorSize(r.chip.sectorSize) && Orderly(r.ctl, setAddr || read) && r.ctl.fsm.Idle?
    ensures var left := StepsLeft(Wired(r, setAddr, addr, read, l));
      if setAddr then left <= 27 else if read then left <= 7 else left == 0
  {
  }

  /** Every cycle brings an answer nearer, unless a transfer is running on. */
  lemma StepsDrop(r: Reader, setAddr: bool, addr: Address, read: bool, l: Link)
    requires KnownSectorSize(r.chip.sectorSize) && Orderly(r.ctl, setAddr || read)
    ensures var left := StepsLeft(Wired(r, setAddr, addr, read, l));
      if setAddr then left <= 27 else if read then left <= 7
      else if r.spi.busy && !l.finish then left <= StepsLeft(r)
      else left == 0 || left < StepsLeft(r)
  {
    hide Wired, StepsLeft;
    if r.ctl.fsm.Idle? {
      IdleDrops(r, setAddr, addr, read, l);
    } else if r.ctl.fsm.DummyXfer? || r.ctl.fsm.Data? {
      WaitingDrops(r, addr, l);
    } else {
      SendingDrops(r, addr, l);
    }
  }
}
