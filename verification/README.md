# Booting the Application FPGA of the SVEC card, verified

The SVEC is a VME carrier whose System FPGA configures the Application FPGA (AFPGA), either
from an SPI flash or with a bitstream the host sends over VME. This project models the whole
boot path, from a byte buffer on the host to the bits clocked into the AFPGA's pins, and proves
what it promises. `dafny verify dfyconfig.toml` checks everything.

## Shape

Every clocked entity is a class whose `Step` collects the scheduled assignments of one clock
edge, with the last assignment winning, and is proved equal to a pure transition function; runs
of that function carry the theorems. The C code is modelled as imperative methods over a board
that may run for any number of clock cycles, with any pin values, before every register access,
and that logs every access; the contracts say which accesses a call makes, in order.

| file | what it models |
|---|---|
| `Bytes` | bytes, words and MSB-first bit streams |
| `XilinxLoader`, `Serialiser`, `LoaderTiming` | the serial loader, what it puts on the wire, its bounds |
| `HostPath`, `HostProgress`, `Board`, `Producers` | register writes, the 256-entry FIFO and the clock interleaved; the work a transfer needs; how a buffer is cut into entries |
| `Driver`, `HostEndToEnd` | the kernel driver with its one-word delay, and a whole session |
| `AfpgaLoader`, `LateDone` | the flasher's direct path, and what it misses |
| `NorFlash`, `FlashImage`, `Flasher`, `FlashProgramming` | the NOR flash, and erase, program and verify |
| `FlashReader`, `FlashBoot`, `FlashFeed`, `FeedControl` | the flash controller and the boot machine, both together while the flash is connected, and whatever the flash answers |
| `FlashPath`, `FlashOutcome`, `FlashSuccess` | both with the loader, from the flash to the wire, and how a boot ends |
| `RegisterBank`, `BootTrigger`, `BootSource`, `BusOwnership`, `SystemFpga` | registers, magic sequence, source selection, bus controller, and all of them together |

## What the code does where one might expect otherwise

- `program_afpga` marks XLAST only when the size is not a multiple of 4. Otherwise the loader
  never waits for DONE, and a DONE that rises only after the last bit is never reported
  (`LateDone.NothingReported`, with a run in `LateDone.LateDoneRun`).
- The flash boot looks at the loader's done flag only. A loader whose INIT_B timeout expired sets
  that flag together with the error flag, so the boot ends in BOOT_DONE without the no-bitstream
  pulse and without a bit sent (`FlashOutcome.BootDoneByInit`, `FlashOutcome.InitNeverFalls`).
- The board hands the flash to the AFPGA while DONE is high. A reset of the System FPGA that leaves
  the AFPGA configured, and not using the flash, therefore boots into NO_BITSTREAM whatever it holds
  (`FlashOutcome.ResetWhileConfigured`), and the no-bitstream pulse then erases the AFPGA.
- Nothing empties the FIFO between sessions but the idle loader itself, one entry a cycle; entries
  that are left at START go out first (`HostEndToEnd.EmptyAtStart`, `HostEndToEnd.StaleFirst`).
- In WAIT_INIT the timeout and the INIT_B test overlap, in WAIT_DONE the timeout overrides DONE
  (`LoaderTiming.WaitInitOutcome`, `LoaderTiming.WaitDoneOutcome`).
- Nothing limits a bitstream to the 0x500000 bytes below the descriptor; a longer one overwrites
  the descriptor (`FlashProgramming.DescriptorSurvives`). The boot machine would read at most
  0x408001 bytes, one more than `c_BITSTREAM_SIZE`.
- The detector does not look at a mismatching byte again, so a stray 0xDE before the magic
  sequence makes it miss (`BootTrigger.FiresExactly`, `BootTrigger.StrayByteMisses`); the driver
  and the flasher write the sequence once.
- `erase_afpga_n_d0` is not reset: a reset during the erase pulse lets the bootloader onto the
  bus right after it (`BusOwnership.ResetDuringErase`).
- doc/hdl-bootloader.rst:13 says that without a valid bitstream the bootloader enters passive
  mode. The code raises the trigger in that case, so `boot_en` rises while the boot source stays
  FLASH until the host writes the magic sequence (`SystemFpga.TakeOver`,
  `SystemFpga.HostOnlyAfterMagic`).
- For more than 256 bytes `flash_program` computes the page length from the whole size, so the last
  page reads past the payload; buffers have a tail of arbitrary bytes in the model, and no result
  depends on it. The driver's last partial word is treated alike.

## Model

| member | source | states |
|---|---|---|
| `SystemFpga.TakeOver` | hdl/top/sfpga_bootloader/svec_sfpga_top.vhd:309-345 | In every run from power-up, for any bus traffic of a master that holds its accesses: when `boot_en` rises, PROGRAM_B has been held low for the 100 cycles before, and they began with a complete magic sequence or with the no-bitstream pulse. |
| `SystemFpga.TriggerTakesOver` | hdl/top/sfpga_bootloader/svec_sfpga_top.vhd:323-338 | Conversely every trigger, by magic sequence or missing bitstream, that is not repeated within 100 cycles sets `boot_en` right after them. |
| `SystemFpga.HandBack` | hdl/top/sfpga_bootloader/svec_sfpga_top.vhd:339-343 | In every run from power-up `boot_en` falls exactly when the VME interface is idle and an accepted CSR write with EXIT is in force: its pulse, two cycles later, has not been cancelled by the end of an erase pulse nor used up by an earlier idle cycle, and no further EXIT or end of an erase pulse comes in that cycle. |
| `FlashPath.FlashRoundTrip` | hdl/rtl/bootloader/flash_boot.vhd:165-253 | After `program_flash` of at most 0x500000 bytes into any usable chip, if DONE stays low for the first n cycles and no SPI transfer runs on for `limit`: the boot gets past the signature within 176*limit cycles; data[k] is the k-th byte handed over, for all bytes fetched by cycle n; until then it gives up only at 0x408001 bytes and the wire carries a prefix of the bitstream. |
| `FlashPath.FlashWire` | hdl/top/sfpga_bootloader/svec_sfpga_top.vhd:366-370 | In every run, whatever the pins do: at most 0x408001 bytes are handed over, the wire is a prefix of their bits and all of them whenever the loader asks for more; bytes fetched before DONE first rose, which is when the flash is taken away, are mem[0x100000..]. |
| `FlashPath.WireWithProgBHigh` | hdl/rtl/bootloader/xilinx_loader.vhd:233-249 | So does every bit of a flash boot. |
| `FlashOutcome.BootDoneExactly` | hdl/rtl/bootloader/flash_boot.vhd:236-241 | In any run from reset, BOOT_DONE is entered exactly when the loader takes a byte with its done flag up; its unconnected error flag is up then exactly when WAIT_INIT ran out, and else DONE was sampled high. |
| `FlashOutcome.BootDoneByInit` | hdl/rtl/bootloader/xilinx_loader.vhd:175-185 | When a boot ends in BOOT_DONE, in any run from reset, the error flag is up if and only if INIT_B was sampled high in the first 200000 cycles of WAIT_INIT. |
| `FlashSuccess.DoneBoots` | hdl/rtl/bootloader/flash_boot.vhd:216-253 | In any run from reset in which DONE is high at a bit output before the boot is over, and no SPI transfer runs on for `limit`: 4103 or 29*limit + 1 cycles later, whichever is more, the boot is in BOOT_DONE without the error flag, the startup clocks are out and no no-bitstream pulse has come. |
| `FlashOutcome.InitNeverFalls` | hdl/rtl/bootloader/flash_boot.vhd:225-264 | If INIT_B is never sampled low, DONE is low and no SPI transfer runs on for `limit`, every boot of a correctly signed flash ends in BOOT_DONE within 263*limit + 201003 cycles, with both loader flags up, nothing sent and no no-bitstream pulse. |
| `FeedControl.SignatureExactly` | hdl/top/sfpga_bootloader/svec_sfpga_top.vhd:366-370 | While DONE keeps one level, with MISO at rest if it is high, and no SPI transfer runs on for `limit`: a boot gets past the signature within 176*limit cycles if DONE is low and the signature is stored, and gives up in that time otherwise. |
| `LateDone.NothingReported` | software/tools/vme-flasher/svec-flasher.c:359-384 | For every run of `program_afpga` on a multiple of 4 bytes, from START on: the loader reports nothing exactly as long as DONE is low at every bit output and the wait for INIT_B does not run out. |
| `HostEndToEnd.HostPathEndToEnd` | hdl/rtl/bootloader/xilinx_loader.vhd:194-263 | For every bitstream, chunking and interleaving from an empty FIFO at START: the data edges carry a prefix of the MSB-first bits of the concatenated chunks; all of them in WAIT_DONE and ever after in the session; a loader that reports success has sent all, or is in GOT_DONE. |
| `HostEndToEnd.LoadBitstream` | software/kernel/svec-core.c:438-470 | A whole FPGA-manager session. -ENXIO iff the bootloader does not answer, and then nothing but the clock has run; -EBUSY only after 10001 looks at a full FIFO; else -EINVAL, -EIO or 0 as the last read of CSR says. All accesses: unlock, one probe, SWRST and START, words, polls, and EXIT as the last unless a `write` call failed. Wire prefix in every outcome; with 0, DONE was sampled high and every bit went out, or DONE rose at a bit output and EXIT has started the startup clocks. |
| `HostProgress.HostSucceeds` | hdl/rtl/bootloader/xilinx_loader.vhd:165-263 | From START on, for every polite interleaving with DONE low at every bit output and no INIT_B timeout: once the loader has had the work of its entries it waits for DONE with everything on the wire, and success is reported exactly when DONE is sampled high within 200000 cycles from there. |
| `HostEndToEnd.WireDetermines` | hdl/rtl/bootloader/xilinx_loader.vhd:220-249 | By then the wire carries the bits of a byte string if and only if that string is what was sent. |
| `FlashProgramming.FlashContents` | software/tools/vme-flasher/svec-flasher.c:298-347 | After `program_flash` (no `-b`) of at most 0x500000 bytes, from any usable chip, fresh or still selected after a boot: descriptor and bitstream read back from their places whatever followed the buffer, no command was refused, everything below 0x100000 is untouched. |
| `XilinxLoader.Loader.Step` | hdl/rtl/bootloader/xilinx_loader.vhd:116-307 | One clock edge as scheduled assignments (last one wins) equals the pure transition. |
| `Serialiser.ClockedStep` | hdl/rtl/bootloader/xilinx_loader.vhd:138-304 | Every step of every run, with any reset, start, divider or pins, keeps: wire = bits of finished entries, plus the part of the current one, and the register holds exactly the rest. |
| `Serialiser.ClockedPrefix` | hdl/rtl/bootloader/xilinx_loader.vhd:220-249 | In any state of that invariant the wire is a prefix of the popped entries' bits. |
| `Serialiser.EdgesAccountedFor` | hdl/rtl/bootloader/xilinx_loader.vhd:233-300 | Every rising CCLK edge is a data edge or a startup edge, with DIN unchanged at the edge. |
| `Serialiser.EntrySerialised` | hdl/rtl/bootloader/xilinx_loader.vhd:201-249 | An entry not cut short by DONE gives exactly 8*(dsize+1) edges for any divider behaviour; edge k carries bit 31-k of the byte-ordered word; WAIT_DONE follows iff XLAST. |
| `LoaderTiming.FirstTick` | hdl/rtl/bootloader/xilinx_loader.vhd:119-135 | With a constant divider the first tick comes after exactly (d - count) mod 128 + 1 cycles, at most 128, from any state. |
| `LoaderTiming.ProgBHeld` | hdl/rtl/bootloader/xilinx_loader.vhd:152-173 | PROG_B is low for all of the first 1002 cycles after START. |
| `LoaderTiming.ProgBExactly` | hdl/rtl/bootloader/xilinx_loader.vhd:141-307 | In every run, under any resets and pins: PROG_B is low in EXTEND_PROG and WAIT_INIT and high in every later state; only IDLE is left open. |
| `LoaderTiming.ProgBReleased` | hdl/rtl/bootloader/xilinx_loader.vhd:175-192 | WAIT_INIT keeps it low while INIT_B is high and releases it in the very cycle that first samples INIT_B low, also in the cycle of the timeout. |
| `LoaderTiming.BeginPins` | hdl/rtl/bootloader/xilinx_loader.vhd:152-192 | Each state's PROG_B up to WAIT_INIT2; an idle loader rests CCLK and DIN at 0. |
| `LoaderTiming.RestartedPins` | hdl/rtl/bootloader/xilinx_loader.vhd:141-151 | A reset of the chip or of the loader alone idles it, with PROG_B high, CCLK and DIN low and the flags clear. |
| `LoaderTiming.RunClockRests` | hdl/rtl/bootloader/xilinx_loader.vhd:194-300 | In every run CCLK is low again before the next entry is latched and before every rising edge. |
| `LoaderTiming.StartupClock` | hdl/rtl/bootloader/xilinx_loader.vhd:277-300 | The startup clocks come with DIN low from their first cycle on. |
| `LoaderTiming.WaitBounded` | hdl/rtl/bootloader/xilinx_loader.vhd:175-187 | A waiting state cannot outlast its counter. |
| `LoaderTiming.WaitInitLeft` | hdl/rtl/bootloader/xilinx_loader.vhd:175-187 | WAIT_INIT is left within 200001 cycles. |
| `LoaderTiming.WaitInitOutcome` | hdl/rtl/bootloader/xilinx_loader.vhd:175-187 | INIT_B falling in the timeout's cycle: the error flags are raised and the loader carries on. |
| `LoaderTiming.WaitDoneLeft` | hdl/rtl/bootloader/xilinx_loader.vhd:251-263 | WAIT_DONE is left within 200001 cycles. |
| `LoaderTiming.WaitDoneOutcome` | hdl/rtl/bootloader/xilinx_loader.vhd:251-263 | It ends with success iff DONE is high before the last cycle; in the last cycle the timeout wins. |
| `LoaderTiming.ShiftProgress` | hdl/rtl/bootloader/xilinx_loader.vhd:201-249 | A lexicographic measure decreases in every cycle while an entry is shifted out. |
| `LoaderTiming.ShiftTerminates` | hdl/rtl/bootloader/xilinx_loader.vhd:201-249 | So an entry is out, or cut short by DONE, within the measure. |
| `LoaderTiming.StartupPulses` | hdl/rtl/bootloader/xilinx_loader.vhd:277-300 | Startup gives exactly 1025 CCLK pulses with DIN low when it ends. |
| `LoaderTiming.StartupStops` | hdl/rtl/bootloader/xilinx_loader.vhd:277-300 | With a constant divider it ends: IDLE is reached within 129 times the half pulses left, plus the cycles to the next tick. |
| `LoaderTiming.InitExpiresExactly` | hdl/rtl/bootloader/xilinx_loader.vhd:175-187 | WAIT_INIT runs out exactly when INIT_B is sampled high in each of its first 200000 cycles. |
| `LoaderTiming.FlagMoves` | hdl/rtl/bootloader/xilinx_loader.vhd:152-275 | The status flags change only at START, at the timeout, and in GOT_DONE. |
| `HostProgress.StartSteps` | hdl/rtl/bootloader/xilinx_loader.vhd:152-165 | START leaves 201005 working cycles, and 9000 for each entry already in the FIFO. |
| `HostProgress.WorkBounded` | hdl/rtl/bootloader/xilinx_loader.vhd:152-263 | For every run without a DONE at a bit output or a timeout: the loader comes to WAIT_DONE, or it has not yet had the work of the entries pushed so far, 9000 cycles each with any divider; cycles without an entry or with INIT_B still low do not count. |
| `HostProgress.NeverStarves` | hdl/rtl/bootloader/xilinx_loader.vhd:194-205 | Once the XLAST entry has been pushed the loader never lacks an entry. |
| `HostProgress.DoneReported` | hdl/rtl/bootloader/xilinx_loader.vhd:251-263 | WAIT_DONE ends with success exactly when DONE is sampled high while its counter has not run out, with the error one cycle after it has, and lasts till then. |
| `HostPath.EdgeCoherent` | hdl/rtl/bootloader/svec_xloader_wb.vhd:411-433 | A clock edge keeps FIFO, read port, loader and histories coherent. |
| `HostPath.FifoConservation` | hdl/rtl/bootloader/svec_xloader_wb.vhd:411-433 | Polite host, any interleaving: nothing lost, duplicated or reordered, at most 256 waiting, R0 fields stay with their R1 word. |
| `HostPath.WirePrefix` | hdl/rtl/bootloader/xilinx_loader.vhd:194-249 | The wire is always a prefix of what the host asked to send. |
| `HostPath.WireWithProgBHigh` | hdl/rtl/bootloader/xilinx_loader.vhd:233-249 | In every run, across any sessions, a bit goes onto the wire only while PROG_B is high, before and after its edge. |
| `HostPath.WireComplete` | hdl/rtl/bootloader/xilinx_loader.vhd:233-263 | In WAIT_DONE, and in IDLE after it, every bit of every entry is out. |
| `HostPath.UnfinishedExactly` | hdl/rtl/bootloader/xilinx_loader.vhd:167-263 | From START on and as long as no XLAST has been pushed: the transfer stays unfinished with CSR.DONE at 0 exactly as long as DONE is low at every bit output and the wait for INIT_B does not run out. |
| `HostPath.RunAccounted` | hdl/rtl/bootloader/xilinx_loader.vhd:220-275 | Within a session the loader is back in IDLE with entries popped only after the last bit of an XLAST entry, and reports success only there or in GOT_DONE. |
| `LateDone.LateDoneRun` | software/tools/vme-flasher/svec-flasher.c:359-384 | Such a run: four bytes go out, DONE rises after the last bit and stays high for any number of cycles, and CSR.DONE is 0 to the end. |
| `LateDone.ReportedAfterEnd` | software/tools/vme-flasher/svec-flasher.c:359-384 | If CSR.DONE is seen after all, DONE was high at a bit output before, or WAIT_INIT ran out. |
| `HostPath.SuccessIsSound` | hdl/rtl/bootloader/xilinx_loader.vhd:141-158 | After SWRST, in any run: DONE without ERROR means the pin was sampled high since the latest SWRST or START. |
| `HostPath.NewSessionCoherent` | hdl/rtl/bootloader/xilinx_loader.vhd:141-158 | SWRST, or START while idle, begins a session with empty histories from any earlier state. |
| `Board.ReachesKeeps` | hdl/rtl/bootloader/svec_xloader_wb.vhd:229-306 | What any stretch of clock edges and polite accesses keeps: byte order, growing wire and pushes, room, coherence, honest flags. |
| `Driver.Device.Reset` | software/kernel/svec-core.c:202-216 | Writes the eight unlock bytes in order, and nothing else. |
| `Driver.Device.LoaderIsActive` | software/kernel/svec-core.c:226-245 | One read of CSR, one of IDR; true exactly when the bootloader answered with its signature. |
| `Driver.Device.WriteWord` | software/kernel/svec-core.c:258-285 | -EINVAL iff the size is not 1 to 4, with no access at all; -EBUSY only after 10001 looks, the last with 256 entries waiting; success is R0 and R1 after a look that found room, and pushes exactly the swapped word with size and XLAST. |
| `Driver.Device.AwaitRoom` | software/kernel/svec-core.c:267-279 | The FULL poll: at most 10001 looks, all but the last at a full FIFO, and full only after 10001 of them. |
| `Driver.Device.WriteStart` | software/kernel/svec-core.c:294-325 | 0 iff the bootloader answered, else -ENXIO with nothing but the clock run. Exactly the unlock, one probe and, if it answered, SWRST and then START; a START that finds the bootloader on the bus leaves EXTEND_PROG with PROG_B low and the flags clear. |
| `Driver.Device.WriteInit` | software/kernel/svec-core.c:438-449 | No word held back; then as `WriteStart`. |
| `Driver.Device.WriteBuf` | software/kernel/svec-core.c:398-429 | One-word delay for any `write` call, also one that gives up: pushed bytes plus the pending word are exactly the bytes consumed; -EINVAL never escapes, -EBUSY only after 10001 looks at a full FIFO; only FIFO accesses. |
| `Driver.Device.WriteStop` | software/kernel/svec-core.c:334-387 | The last word gets XLAST, and only it; then the polls; in every outcome EXIT is the last access, the only CSR write, and the state at return is the one after it. The result is that of the last read; without DONE all polls are used up. |
| `Driver.Device.PollDone` | software/kernel/svec-core.c:362-378 | Both results are those of the last read, and clear if there was none; it gives up only after all reads. |
| `Driver.ExitStartsUp` | hdl/rtl/bootloader/xilinx_loader.vhd:268-276 | Such an EXIT takes a loader in GOT_DONE to the startup clocks, and leaves an idle one alone. |
| `HostProgress.StartupClocks` | hdl/rtl/bootloader/xilinx_loader.vhd:268-300 | From there the clock alone brings out exactly 1025 CCLK pulses and an idle loader within 264579 cycles. |
| `Producers.DriverWordOrder` | software/kernel/svec-core.c:272-282 | One swap plus `iowrite32be` presents memory order, on either host endianness. |
| `Producers.FlasherWordOrder` | software/tools/vme-flasher/svec-flasher.c:87-90 | Two swaps and a native store do the same. |
| `Producers.DriverGroupsFlat` | software/kernel/svec-core.c:398-429 | Cutting chunks into words loses nothing, whatever the chunking. |
| `Producers.ProducersAgree` | software/tools/vme-flasher/svec-flasher.c:349-386 | Driver, `program_afpga` and flash boot give the serialiser the same bytes. |
| `Producers.XlastPlacement` | software/kernel/svec-core.c:343-350 | Driver: exactly one XLAST, last, unless there is no entry; `program_afpga`: only on the final entry and iff the size is not a multiple of 4. |
| `HostEndToEnd.WriteAll` | software/kernel/svec-core.c:452-456 | The `write` calls until one fails. |
| `HostEndToEnd.SessionCsrs` | software/kernel/svec-core.c:294-387 | Over a whole session CSR is written with SWRST, START and, if no `write` call has failed, once with EXIT, in that order and with nothing else. |
| `AfpgaLoader.Tool.EnterBootloader` | software/tools/vme-flasher/svec-flasher.c:97-116 | Same unlock bytes as the driver, then IDR; true exactly when the bootloader answered with its signature, and only then CSR is read. |
| `AfpgaLoader.Tool.BusOrder` | software/tools/vme-flasher/svec-flasher.c:87-90 | `csr_writel` of the swapped word puts memory order on the bus. |
| `AfpgaLoader.Tool.SendAll` | software/tools/vme-flasher/svec-flasher.c:359-370 | The FIFO loop: entries so far stand for the bytes sent so far, which are 4 for each look that found room, up to the size; bytes are missing only after all looks. |
| `AfpgaLoader.Tool.AwaitDone` | software/tools/vme-flasher/svec-flasher.c:372-384 | The DONE loop: reads of CSR without DONE, then one with it, EXIT and the result; without a result all polls are used up. |
| `AfpgaLoader.Tool.ProgramAfpga` | software/tools/vme-flasher/svec-flasher.c:349-386 | All accesses, from SWRST and START to EXIT; it does not return only because its looks or polls are used up. Wire prefix at any point; when it returns 0: a genuine DONE, and either GOT_DONE or every bit sent, the latter only if the size is not a multiple of 4; with a multiple of 4 it returns only after DONE was high at a bit output or WAIT_INIT ran out. |
| `AfpgaLoader.AfpgaSuccess` | software/tools/vme-flasher/svec-flasher.c:359-384 | The reason: without XLAST only a DONE at a bit output is ever reported as success. |
| `HostEndToEnd.EmptyAtStart` | software/kernel/svec-core.c:315-320 | The FIFO is empty after START exactly when the cycles since SWRST are at least as many as the entries an earlier session left. |
| `HostEndToEnd.StaleFirst` | software/kernel/svec-core.c:315-320 | Else the wire carries a prefix of their bits followed by those of the new session. |
| `HostEndToEnd.StaleOut` | software/kernel/svec-core.c:315-320 | And they do go out: once as many entries have been popped all their bits are on the wire. |
| `LateDone.StaleRun` | software/kernel/svec-core.c:315-320 | A run in which they are clocked out. |
| `NorFlash.AddressRoundTrip` | software/tools/vme-flasher/svec-flasher.c:212-226 | The three address bytes give back the address. |
| `NorFlash.ProgramErasedPage` | software/tools/vme-flasher/svec-flasher.c:212-226 | Programming an erased page stores exactly the page, under AND-only programming with wrap. |
| `Bytes.ErasedAnd` | software/tools/vme-flasher/svec-flasher.c:212-226 | 0xFF AND x is x. |
| `Flasher.Spi.FlashWriteEnable` | software/tools/vme-flasher/svec-flasher.c:205-210 | Sets the latch and nothing else. |
| `Flasher.Spi.FlashEraseSector` | software/tools/vme-flasher/svec-flasher.c:194-203 | Erases the addressed sector, waits, consumes the latch. |
| `Flasher.Spi.FlashProgramPage` | software/tools/vme-flasher/svec-flasher.c:212-226 | Programs one page and waits. |
| `Flasher.Spi.FlashWaitCompletion` | software/tools/vme-flasher/svec-flasher.c:181-192 | Returns when the chip is idle. |
| `Flasher.Spi.FlashReadId` | software/tools/vme-flasher/svec-flasher.c:161-179 | Returns the chip's identity and leaves it deselected, also when it finds it in the middle of a fast read. |
| `FlashImage.PageWritten` | software/tools/vme-flasher/svec-flasher.c:253-273 | One turn of the loop extends the written image by one page, erasing the sector iff it is fresh. |
| `FlashImage.ErasedOnce` | software/tools/vme-flasher/svec-flasher.c:256-263 | A sector is erased exactly once if it meets the written range, else never. |
| `FlashImage.ProgrammedOnce` | software/tools/vme-flasher/svec-flasher.c:253-273 | Each page is programmed once, with its own bytes, in order. |
| `FlashImage.EraseComesFirst` | software/tools/vme-flasher/svec-flasher.c:257-266 | Every page is programmed after its sector's erasure, and the sector is never erased afterwards. |
| `FlashProgramming.ProgramOnePage` | software/tools/vme-flasher/svec-flasher.c:253-273 | The loop body in place: sector map in range for both chips, each operation with its own WREN. |
| `FlashProgramming.ProgramPages` | software/tools/vme-flasher/svec-flasher.c:236-273 | The whole loop equals the image and the operation list. |
| `FlashProgramming.Verify` | software/tools/vme-flasher/svec-flasher.c:275-291 | The read-back loop reports a mismatch iff there is one. |
| `FlashProgramming.FlashProgram` | software/tools/vme-flasher/svec-flasher.c:228-296 | Returns 0 on a fault-free flash: the verify pass never fails, whatever follows the payload; -ENODEV and -ENOMEM paths leave the chip alone. |
| `FlashProgramming.ProgramFlash` | software/tools/vme-flasher/svec-flasher.c:298-347 | All outcomes, for `-b` and for descriptor plus bitstream, also the one in which only the second sector map cannot be allocated; the chip may still be selected after a boot. |
| `FlashProgramming.ContentsAt` | software/tools/vme-flasher/svec-flasher.c:228-296 | The range holds the data; every sector that does not meet it is unchanged. |
| `FlashProgramming.DescriptorSurvives` | software/tools/vme-flasher/svec-flasher.c:298-347 | The descriptor survives `program_flash` if and only if the bitstream is at most 0x500000 bytes long or holds the descriptor's own bytes at that place; nothing checks the size. |
| `FlashReader.Controller.Step` | hdl/rtl/bootloader/m25p_flash.vhd:101-257 | Both processes of a clock edge equal the pure transition. |
| `FlashReader.SeekStarts` | hdl/rtl/bootloader/m25p_flash.vhd:168-173 | A set-address request starts the sequence and takes `ready` away at once. |
| `FlashReader.SeekStep` | hdl/rtl/bootloader/m25p_flash.vhd:186-241 | Deselect, 0x0B, three address bytes, dummy: kept in every cycle for any latency, `ready` low throughout. |
| `FlashReader.FetchStarts` | hdl/rtl/bootloader/m25p_flash.vhd:174-177 | So does a read request. |
| `FlashReader.FetchStep` | hdl/rtl/bootloader/m25p_flash.vhd:245-254 | The n-th read returns flash[addr+n], for any latency, `ready` low until then. |
| `FlashReader.RestStep` | hdl/rtl/bootloader/m25p_flash.vhd:168-181 | Without a request nothing moves. |
| `FlashReader.FarStops` | hdl/rtl/bootloader/m25p_flash.vhd:101-181 | A FAR write stops the sequencer in any state; idle and without a request it asks the SPI master for nothing. |
| `FlashReader.StreamReply` | hdl/rtl/bootloader/m25p_flash.vhd:186-254 | A flash that received the command streams from the address on. |
| `FlashReader.HostStarts` | hdl/rtl/bootloader/m25p_flash.vhd:101-125 | A FAR write with XFER starts one transfer of its byte and stops the sequencer. |
| `FlashReader.HostKeeps` | hdl/rtl/bootloader/m25p_flash.vhd:101-130 | For any latency that transfer exchanges exactly that byte with the FAR chip select, and FAR.READY returns only with the answer. |
| `FlashReader.HostSelects` | hdl/rtl/bootloader/m25p_flash.vhd:101-125 | A FAR write without XFER only sets chip select; clearing it deselects the chip. |
| `FlashReader.StepsDrop` | hdl/rtl/bootloader/m25p_flash.vhd:150-260 | Every cycle brings the answer to a request nearer, unless a transfer is running on. |
| `FlashBoot.Engine.Step` | hdl/rtl/bootloader/flash_boot.vhd:154-283 | One clock edge of the boot machine equals the pure transition. |
| `FlashBoot.BootBounded` | hdl/rtl/bootloader/flash_boot.vhd:190-261 | In every run from reset: at most 0x408001 bytes taken, none before all four signature bytes matched. |
| `FlashFeed.InvStep` | hdl/rtl/bootloader/flash_boot.vhd:154-270 | While the flash is connected, boot machine and flash controller stay in step, for any latency and any loader. |
| `FlashFeed.FeedFaithful` | hdl/rtl/bootloader/flash_boot.vhd:209-253 | While DONE is low: the k-th byte handed to any loader is flash[0x100000+k]; none without the right signature; giving up has exactly two reasons. |
| `FlashFeed.BootOnlyReads` | hdl/rtl/bootloader/m25p_flash.vhd:186-254 | With DONE low a boot changes nothing in the flash: at every point it is idle, and deselected or in the middle of a fast read. |
| `FlashPath.BootReprogramBoot` | software/tools/vme-flasher/svec-flasher.c:120-131 | After any boot with DONE low the chip can be reprogrammed as it is, and is then ready for the next boot. |
| `FeedControl.ControlStep` | hdl/rtl/bootloader/m25p_flash.vhd:150-260 | Requests, answers and counters stay in order whatever the flash answers, connected or not. |
| `FeedControl.FetchedFaithful` | hdl/rtl/bootloader/flash_boot.vhd:209-225 | What was fetched before DONE first rose is the flash's, and stays so until it is handed over. |
| `FeedControl.SignatureDecides` | hdl/rtl/bootloader/flash_boot.vhd:165-206 | With DONE low the boot goes on or gives up within 176*limit cycles of reset, and goes on exactly when the right signature is stored. |
| `FeedControl.FirstByteOffered` | hdl/rtl/bootloader/flash_boot.vhd:200-225 | Then the first byte is on offer within 263*limit cycles. |
| `FeedControl.GivesUpBlind` | hdl/top/sfpga_bootloader/svec_sfpga_top.vhd:366-370 | With DONE high and MISO at rest the boot gives up in that time, whatever the flash holds. |
| `FlashOutcome.ResetWhileConfigured` | hdl/top/sfpga_bootloader/svec_sfpga_top.vhd:366-370 | So a reset while the AFPGA is configured hands out and sends nothing and ends in NO_BITSTREAM. |
| `FlashFeed.CheckExact` | hdl/rtl/bootloader/flash_boot.vhd:93-112 | One comparison rejects iff the flash's byte differs. |
| `FlashPath.InvStep` | hdl/rtl/bootloader/flash_boot.vhd:209-253 | With the loader, whatever the pins do: popped bytes are the handed bytes, and an offered byte stays until latched. |
| `FlashPath.HeldStep` | hdl/rtl/bootloader/flash_boot.vhd:219-225 | The byte does not change before the divider's next tick. |
| `FlashOutcome.BootDoneMeans` | hdl/rtl/bootloader/flash_boot.vhd:236-241 | In every run BOOT_DONE means that DONE was sampled high since START or that WAIT_INIT ran out, and no pulse has come out. |
| `FlashOutcome.InitTimeoutBoot` | hdl/rtl/bootloader/flash_boot.vhd:236-241 | A run that ends in BOOT_DONE with INIT_B high throughout. |
| `FlashPath.GivesUpLate` | hdl/rtl/bootloader/flash_boot.vhd:243-247 | With the right signature stored and DONE low, the byte limit is the only reason to give up. |
| `BootSource.OnePulse` | hdl/rtl/bootloader/flash_boot.vhd:255-283 | From reset at most one no-bitstream pulse; the source is HOST iff there was a trigger. |
| `BootSource.GivingUpReports` | hdl/rtl/bootloader/flash_boot.vhd:255-283 | And it does come, two cycles after NO_BITSTREAM is entered. |
| `BootSource.ResetSelectsFlash` | hdl/rtl/bootloader/sfpga_bootloader.vhd:219-228 | One cycle of reset, from any state, selects the flash and restarts the boot machine. |
| `SystemFpga.ResetGives` | hdl/rtl/bootloader/sfpga_bootloader.vhd:219-345 | One cycle of reset, from any state, gives the start state of all runs of the System FPGA, exactly if `erase_afpga_n_d0` is 0. |
| `FlashPath.ResetGives` | hdl/rtl/bootloader/flash_boot.vhd:154-165 | Likewise for boot machine, flash controller and loader, with an SPI master and a flash at rest. |
| `FlashReader.ResetRests` | hdl/rtl/bootloader/m25p_flash.vhd:101-160 | The controller's part of it. |
| `BootTrigger.Detector.Step` | hdl/rtl/bootloader/sfpga_bootloader.vhd:325-349 | One clock edge of the detector equals the pure transition. |
| `BootTrigger.DetectorRefines` | hdl/rtl/bootloader/sfpga_bootloader.vhd:325-349 | Over every run: a pulse only with the magic sequence as the eight latest writes, exactly one for each completion, no write lost. |
| `BootTrigger.StepFollows` | hdl/rtl/bootloader/sfpga_bootloader.vhd:203-212 | The pulse lasts one cycle, right after BOOT_READY. |
| `BootTrigger.FiresExactly` | hdl/rtl/bootloader/sfpga_bootloader.vhd:325-349 | Written once, the sequence fires iff the detector was at its start. |
| `BootTrigger.TwiceFires` | hdl/rtl/bootloader/sfpga_bootloader.vhd:325-349 | Written twice in a row it fires from any state. |
| `BootTrigger.StrayByteMisses` | hdl/rtl/bootloader/sfpga_bootloader.vhd:203-212 | A stray 0xDE before it makes it miss. |
| `SystemFpga.UnlockExactly` | software/kernel/svec-core.c:206-212 | The driver's unlock fires iff the detector was at its start. |
| `RegisterBank.Bank.Step` | hdl/rtl/bootloader/svec_xloader_wb.vhd:84-394 | One clock edge of the bank equals the pure transition. |
| `RegisterBank.RunOrderly` | hdl/rtl/bootloader/svec_xloader_wb.vhd:101-122 | In every run at most one acknowledge is on its way, exactly while an access is in progress. |
| `RegisterBank.StrobeExact` | hdl/rtl/bootloader/svec_xloader_wb.vhd:103-118 | BTRIGR, FAR, R1 and clear strobes are the accepted writes one cycle later, one cycle long, never adjacent. |
| `RegisterBank.EventsExact` | hdl/rtl/bootloader/svec_xloader_wb.vhd:354-394 | Over every bus run: one ACK per accepted access; one START, SWRST or EXIT pulse per accepted CSR write with that bit, despite the three-cycle hold. |
| `RegisterBank.PulseTwoLater` | hdl/rtl/bootloader/svec_xloader_wb.vhd:354-394 | START, SWRST or EXIT is pulsed exactly two cycles after an accepted CSR write with that bit. |
| `RegisterBank.DueSoon` | hdl/rtl/bootloader/svec_xloader_wb.vhd:101-118 | What is still due shows within two cycles, with nothing else accepted. |
| `RegisterBank.PushesPaired` | hdl/rtl/bootloader/svec_xloader_wb.vhd:229-276 | Each accepted R1 write pushes one entry, with the fields of the latest R0 write. |
| `RegisterBank.BytesCarried` | hdl/rtl/bootloader/svec_xloader_wb.vhd:398-403 | The unregistered trigger and SPI bytes are the written ones if the master holds its access. |
| `RegisterBank.ControlKept` | hdl/rtl/bootloader/svec_xloader_wb.vhd:122-131 | MSBF, CLKDIV and the FAR control bits change only by an accepted write to their register. |
| `SystemFpga.CsrFields` | hdl/rtl/bootloader/svec_xloader_wb.vhd:122-131 | For every command the host can encode, the bank decodes exactly its fields. |
| `SystemFpga.FarFields` | hdl/rtl/bootloader/svec_xloader_wb.vhd:190-195 | Likewise for the registered bits of FAR; its byte is the subject of `RegisterBank.BytesCarried`. |
| `SystemFpga.SizeFields` | software/kernel/svec-core.c:272-282 | The driver's R0 word gives the entry its size and XLAST. |
| `SystemFpga.AtomicAccess` | hdl/rtl/bootloader/svec_xloader_wb.vhd:229-306 | Bus runs and atomic host writes push the same entries. |
| `BusOwnership.Controller.Step` | hdl/top/sfpga_bootloader/svec_sfpga_top.vhd:309-345 | Extender and controller equal the pure transition. |
| `BusOwnership.BootEnRises` | hdl/top/sfpga_bootloader/svec_sfpga_top.vhd:323-338 | `boot_en` rises iff an erase pulse has just ended; that pulse lasted 100 cycles from a trigger. |
| `BusOwnership.TriggerEnables` | hdl/top/sfpga_bootloader/svec_sfpga_top.vhd:323-338 | Every trigger that is not repeated within 100 cycles raises it right after them. |
| `BusOwnership.ProgramBLow` | hdl/top/sfpga_bootloader/svec_sfpga_top.vhd:318-321 | Throughout an erase pulse PROGRAM_B is low, whatever the loader drives. |
| `BusOwnership.BootEnFalls` | hdl/top/sfpga_bootloader/svec_sfpga_top.vhd:339-343 | It falls iff an EXIT is pending, neither cancelled nor used up, the interface is idle, and neither another EXIT nor the end of an erase pulse comes. |
| `SystemFpga.ExitSeen` | hdl/top/sfpga_bootloader/svec_sfpga_top.vhd:339-343 | The bus controller sees EXIT exactly two cycles after such a write. |
| `BusOwnership.DrivesOnlyAfterErase` | hdl/top/sfpga_bootloader/svec_sfpga_top.vhd:373-384 | Nothing is driven onto the VME bus before the Application FPGA has been erased. |
| `BusOwnership.DataDriven` | hdl/top/sfpga_bootloader/svec_sfpga_top.vhd:373-382 | Some VME output is driven iff `boot_en`; data iff the buffers are enabled too. |
| `BusOwnership.ResetDuringErase` | hdl/top/sfpga_bootloader/svec_sfpga_top.vhd:323-333 | The delayed sample is not reset: after a reset `boot_en` rises at once iff the reset cut an erase pulse short. |
| `SystemFpga.PulseMeansMagic` | hdl/rtl/bootloader/sfpga_bootloader.vhd:325-351 | A detector pulse means the host's accepted BTRIGR writes end in the magic sequence. |
| `SystemFpga.HostOnlyAfterMagic` | hdl/rtl/bootloader/sfpga_bootloader.vhd:219-228 | The loader becomes the host's only after a complete magic sequence. |
| `SystemFpga.StrobesSpaced` | hdl/rtl/bootloader/svec_xloader_wb.vhd:152-154 | The bank never strobes BTRIGR in adjacent cycles. |

The pure transition functions (`XilinxLoader.Next`, `FlashReader.Next`, `FlashBoot.Next`,
`RegisterBank.Next`, `BootTrigger.Next`, `BusOwnership.Next`) have no contract of their own: the
`Step` methods above are proved equal to them.

## Left out

- The VME bus and `mini_vme.vhd`: host accesses are register reads and writes, "idle" is a free input; that the bus master keeps an access unchanged until its acknowledge is an assumption of `RegisterBank.BytesCarried` and of the results built on it.
- HostPath.FifoConservation: host accesses are atomic steps between clock edges; `SystemFpga.AtomicAccess`, `RegisterBank.EventsExact` and `RegisterBank.StrobeExact` are what justifies that. The readback data path of the bank is not modelled.
- `HostPath` takes the loader to be the host's, as it is once the host has written the magic sequence (`SystemFpga.HostOnlyAfterMagic`); while the boot source is FLASH, `p_select_boot_source` keeps SWRST, START and the FIFO away from the loader and the host reads BUSY.
- `FlashPath`, `FlashFeed`, `FlashOutcome` and `FlashSuccess` take the boot source to be the flash throughout: no magic sequence of the host changes it during the run.
- HostEndToEnd.HostPathEndToEnd: holds from an empty FIFO at START up to the EXIT write, because the loader drains the FIFO while idle and the EXIT write clears MSBF and CLKDIV.
- `FIFO_CSR.CLEAR_BUS`: set as the code sets it, but the host software never uses it, so the FIFO of `HostPath` has no clear.
- Library parts that are not in the repository are abstract: the FIFO holds 256 entries and answers one cycle after the request, the synchronisers deliver arbitrary samples, `gc_extend_pulse` is a retriggerable pulse of 100 cycles from the trigger's own cycle on, the SPI master drops ready in the cycle of a start and ends after any number of cycles.
- The NOR flash is fault-free, has two geometries, and takes commands when it is deselected; a busy chip becomes idle after any number of status reads.
- Driver.Device.PollDone: the jiffies timeout is an arbitrary number of polls, as are the endless loops of the flasher (`AfpgaLoader.Tool.SendAll`, `AfpgaLoader.Tool.AwaitDone`, the FAR polls); `mdelay` and `usleep` are arbitrary runs of the clock.
- Driver.Device.WriteBuf: buffers whose size does not fit an `int` are excluded, since the index of the loop is one.
- Host FAR accesses that collide with a flash boot; at the host's side a FAR access is one SPI byte out and one in.
- Resets other than one at power-up, except where a lemma speaks of them; the asynchronous reset of the register bank is taken at the clock edge.
- The bus results start from a power-up in which `erase_afpga_n_d0` is 0 (`BusOwnership.POWER_UP`); `BusOwnership.ResetDuringErase` says what other values do.
- What the AFPGA does with the flash while DONE is high is arbitrary (`FlashReader.Link`), and so is the relation between the DONE pin and its synchronised sample.
- The loader's busy flag, which no host software reads.
- The PLLs, LEDs and tristate address lines.
- `svec-core-fpga.c`, probe and remove, sysfs, debugfs, the MFD and FMC tables, `svec-compat.c`, `main` and the messages of the flasher, `svec-firmware-version.c`, the base registers and the golden and White Rabbit tops: not part of the boot path.
