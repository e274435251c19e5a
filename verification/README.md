# Verification of LibXR microcontroller drivers

Drivers whose correctness rests on a protocol rather than on a vendor library, as Dafny models with
proofs. Where several callers and interrupts run at once the model is a machine of single shared
accesses, and the program text is a class that is proved to follow it access by access; where the
steps are atomic the model is the class alone.

- `can_*.dfy`: the transmit service of the CAN drivers (STM32 bxCAN, STM32 FDCAN, CH32). Lock, pend
  bit, pools and mailboxes under any number of callers: safety, no lost kick, termination, delivery.
- `i2c_*.dfy`: the ESP32 I2C engine. The command list and the FIFOs have a bus-trace meaning, the
  slave is a register file; the interrupt-driven and the polled engine are both proved against one
  ideal trace, and the chunked register transfers against one uncut transfer.
- `uart_messages.dfy`, `esp_uart.dfy`, `esp_cdc_jtag.dfy`: transmit pipelines with an active slot, a
  pending slot and a queue. Bytes and completions keep the order of submission; idle means empty.
- `mspm0_uart_machine.dfy`, `mspm0_uart_liveness.dfy`, `mspm0_uart.dfy`: the MSPM0 UART byte pump, its
  wake-up, and why everything submitted is sent.
- `mspm0_spi_line.dfy`, `mspm0_spi.dfy`: the two FIFOs and the frames between them, DMA and polled
  transfers, their ends, what they leave behind, and reads cut into chunks.
- `esp_usb_fifo.dfy`: the packet memory of the ESP32-S3 USB controller.
- `timebase.dfy`: microsecond clocks read in several pieces.
- `mspm0_pwm.dfy`: divider, prescaler and load.
- `arithmetic.dfy`: products and quotients.

`dafny verify dfyconfig.toml` checks everything.

## What is assumed of the surroundings

- Steps of different callers interleave sequentially consistently; the orders of the atomics are not
  used. `LockFreePool` is a bounded bag whose Put and Get are one step each; Get may hand out any frame.
- CAN hardware refuses a frame only when no mailbox is free. Applications make finitely many calls
  (`budget`); that bound is arbitrary.
- I2C: the FIFO has 3 to 255 entries, so that the 8-bit counts of the driver never wrap. What the
  hardware does with each segment (`fate`) and what the bus check before it says (`check`) are
  arbitrary functions; a segment that fails puts any first part of its events on the bus.
- Write ports: one submitter at a time is between lock and unlock, as `WritePort` arranges; a push of
  bytes and entry is one step in the ESP models and two in the MSPM0 model. What callbacks submit, how
  much room a FIFO has, how much a write takes and whether a DMA channel starts are arbitrary functions.
  In the CDC model callbacks stop submitting after some completion: without that the recursion of the
  driver need not end, as `EspCdcJtag.Esp32CdcJtag.StartAndReportActive` shows.
- MSPM0 UART: the interrupt line is a level, up while the status is up and enabled; whether the
  hardware lowers the status of a FIFO above its threshold is left open. That everything is sent
  assumes that a full FIFO drains in the end.
- SPI: DMA-done interrupts come only when their channel is done; all others come at any time. Frames are
  clocked and bytes handed over and fetched at any time, but while a transfer receives the RX FIFO has
  room for the next frame (that it has not is its overflow interrupt). A repetition that is stopped may
  still clock any number of the frames it owes. The semaphore of a BLOCK caller has no credit when its
  call starts.
- Clocks: the tick interrupt comes at any time after the counter has started over. Fewer than 2^32
  periods are counted between two tick reads, and from some read on at most one during a pass. The
  reload of the STM32 SysTick takes no cycle of its own.
- USB: the memory ends 16384 words below the 16-bit range (`RoomTestIsExact`), and the controller has
  fewer than seven dieptxf registers.

## Where the code and its promise part

Each comes with its exact condition and an input at which it happens.

- The CH32 CAN form can lose an accepted frame (`LostExactlyAtFullPutBack`, `Ch32LosesAFrame`).
- A polled I2C register read of zero bytes does not move the register pointer
  (`EmptyReadMovesNoPointer`, `EmptyReadAt16`).
- With a FIFO of exactly four bytes more than the register address the loop of a polled I2C register
  write does not advance (`ChunkIsEmpty`, `ChunkOfFive`). It ends when something breaks, with nothing
  stored, and otherwise never (`MemWritePolled`, `StillAtTheStart`); `MemWrite` excludes only the call
  that never returns.
- After a DMA error the ESP UART is idle with requests queued exactly when some were, or the callback of
  the failed request submits one (`OnTxTransferDone`, `ErrorLeavesTheQueue`). After a refused start it is
  idle with a pending request exactly when something waits behind the refused one (`Strands`,
  `RefusalStrandsTheNext`).
- A polled MSPM0 SPI register write longer than the RX buffer is not refused, and what comes in is
  written behind the end of that buffer (`Mspm0Spi.MemWrite`, `HandWriteOverruns`).
- A MSPM0 SPI transfer that breaks off can leave frames in the FIFOs, and one that only sends by DMA does
  exactly when its last frame has not been clocked by its interrupt. The next transfer then delivers
  every answer as many places late as frames were left: its answers are its own exactly when none was
  (`DeliveredAt`, `AnswerOfAnother`).
- A polled status word of the MSPM0 SPI says RUNNING for good exactly when the DMA transfer was over
  before its call marked it as running (`Polled` with `Over`, `RunningForGood`).
- While the tick interrupt is late the clocks read a thousand microseconds early for every period not
  counted yet, and run backwards (`ExactIffCounted`, `LateTickRunsBackwards`).
- The CH32 clock announces too small a range (`Ch32LosesTheWrap`, `Ch32AcrossTheWrap`), and the STM32
  SysTick clock can exceed its range by one (`SysTickLeavesTheRange`, `SysTickAtTheEnd`).
- The MSPM0 PWM accepts a period so long that rounding it up wraps, and programs a load out of range
  (`SetConfig`, `OneHertz`).

## Model

| member | source | states |
|---|---|---|
| `CanTxSafety.NextInv` | driver/st/stm32_can.cpp:425-484 | Every step of every caller, of the hardware and of the application keeps the invariant: one caller between lock and unlock, every accepted frame in exactly one place, and a recorded request for service wherever a frame could wait beside a free mailbox; for all three drivers and any number of callers. |
| `CanTxSafety.AccessConserves` | driver/ch/ch32_can.cpp:520-538 | Per shared access and frame: accepted = pooled + in hand + handed over + lost, so that no frame is duplicated or dropped anywhere but at a put-back. |
| `CanTxTheorems.EveryStateIsSafe` | driver/st/stm32_can.cpp:418-485 | In every state of every run at most one caller holds the lock, and when no call is in progress and no completion interrupt is pending the pools are empty or every mailbox is occupied. |
| `CanTxLiveness.NextDecreases` | driver/st/stm32_can.cpp:425-484 | Every step except a new submission or kick lowers a lexicographic measure (calls left, frames weighted pool and hand over mailbox, requests not raised yet, pend, program-counter ranks); submissions lower its first component. |
| `CanTxLiveness.StuckMeansSent` | driver/ch/ch32_can.cpp:507-551 | Where nothing can happen any more, the accepted frames are exactly the ones handed to the hardware and the ones lost, and only the CH32 form can have lost one. |
| `CanTxLiveness.EveryFrameIsSent` | driver/st/stm32_can.cpp:418-503 | Every execution that goes on while it can reaches, after finitely many steps, a state in which every accepted frame has been handed over exactly once or was lost. |
| `CanTxTheorems.CheckFirstNeverPutsBack` | driver/st/stm32_can.cpp:445-462 | Where a free mailbox is checked before a frame is taken, the hardware never refuses: nothing is put back and nothing is lost in any run. |
| `CanTxTheorems.HandsOverWhatItTook` | driver/ch/ch32_can.cpp:528-531 | The frame handed to the hardware is the one its caller took, although the CH32 form builds every message in one shared buffer. |
| `CanTxTheorems.LostExactlyAtFullPutBack` | driver/ch/ch32_can.cpp:531-536 | A step loses a frame if and only if it is a put-back that finds its pool full. |
| `CanTxTheorems.Ch32LosesAFrame` | driver/ch/ch32_can.cpp:520-538 | A concrete run of the CH32 form in which an accepted frame is lost that way. |
| `CanTxTheorems.FdWaitsOnlyForItsOwnKick` | driver/st/stm32_canfd.cpp:736-775 | A classic frame is taken ahead of a queued FD frame only while a request for service is still recorded. |
| `CanTxDriver.OthersInterfere` | driver/st/stm32_can.cpp:418-485 | Whatever other callers and the hardware do between two accesses of one caller is covered by the interference relation the driver methods are verified against. |
| `CanTxDriver.CanDriver.TxServiceBx` | driver/st/stm32_can.cpp:418-485 | The STM32 program text follows the machine access by access, never reaches its put-back, and returns under every schedule. |
| `CanTxDriver.CanDriver.TxServiceCh` | driver/ch/ch32_can.cpp:500-552 | The same for the CH32 text, which takes a frame first and puts it back when refused. |
| `CanTxDriver.CanDriver.TxServiceFd` | driver/st/stm32_canfd.cpp:715-791 | The same for the FDCAN text with its two pools. |
| `CanTxDriver.CanDriver.AddMessage` | driver/st/stm32_can.cpp:487-503 | ARG_ERR for an error frame and FULL exactly when the pool has no room, nothing being accepted then; OK means that this call's own Put accepted this frame, on top of all accepted before, and that its new caller has been through TxService. |
| `CanTxDriver.CanDriver.AddMessageFd` | driver/st/stm32_canfd.cpp:622-648 | The FDCAN form puts once, or once more after serving when the pool was full; FULL exactly when both Puts found no room, OK when one of them accepted this frame and its caller has been through TxService. |
| `I2cBus.StaleSlotsAreDead` | driver/esp/esp_i2c.cpp:466-623 | Command registers behind a terminated list, left over from earlier segments, never reach the bus. |
| `I2cBus.WriteSegmentRuns` | driver/esp/esp_i2c.cpp:505-533 | A staged write segment puts START, address and exactly its chunk on the bus and empties the TX FIFO. |
| `I2cBus.ReadSegmentRuns` | driver/esp/esp_i2c.cpp:573-611 | A staged read segment puts START, address and its reads on the bus; the last segment NACKs exactly its last byte and stops. |
| `I2cBus.NackedAndStoppedOnce` | driver/esp/esp_i2c.cpp:806-932 | The bus trace of a transaction has one STOP, at its end; of the bytes read exactly the last is NACKed (section 3.1.6 of UM10204). |
| `I2cBus.SegmentsIsCeiling` | driver/esp/esp_i2c.cpp:477-580 | The number of segments for a count is the least number of pieces of the cap that covers it. |
| `I2cJob.NewJobToCome` | driver/esp/esp_i2c.cpp:411-436 | A fresh transaction has the whole ideal trace to come, in exactly ceil(prefix/cap)+ceil(write/cap)+ceil(read/FIFO_LEN)+(1 if nothing is read) segments. |
| `I2cJob.PrefixStep` | driver/esp/esp_i2c.cpp:505-518 | The trace still to come before a prefix chunk is the chunk's segment followed by the trace to come after it. |
| `I2cJob.PayloadStep` | driver/esp/esp_i2c.cpp:519-533 | The same for a payload chunk. |
| `I2cJob.ReadStep` | driver/esp/esp_i2c.cpp:573-611 | The same for a read chunk. |
| `I2cEngine.Esp32I2c.ExecuteTransaction` | driver/esp/esp_i2c.cpp:757-932 | For every payload, read length and FIFO size: success leaves the ideal trace on the bus, the device in the state after it and its answers in the buffer, in exactly the counted segments; failure leaves a prefix of the trace and the result of the failing segment; the buffer outside the read is untouched. |
| `I2cEngine.Esp32I2c.Kick` | driver/esp/esp_i2c.cpp:466-623 | One kick starts exactly the next segment or finds the transaction over: trace so far, segment started and trace to come always add up to the same goal, chunks are stored without gap or overlap, at most 6 registers and FIFO_LEN bytes either way are used. |
| `I2cEngine.Esp32I2c.StartAsyncTransaction` | driver/esp/esp_i2c.cpp:366-464 | ARG_ERR, SIZE_ERR and recovery errors start nothing; otherwise the first segment is running and the goal is the ideal trace of prefix + payload. |
| `I2cEngine.Esp32I2c.HandleInterrupt` | driver/esp/esp_i2c.cpp:698-755 | Spurious interrupts change nothing; an error ends the transaction with one report; a finished segment starts the next one, or ends the transaction with one report of success exactly when the whole trace is out and the buffer holds the whole answer. |
| `I2cEngine.Esp32I2c.DriveToEnd` | driver/esp/esp_i2c.cpp:698-755 | If every started segment raises completion or an error, the transaction ends, with exactly one release of the bus and one report. |
| `I2cEngine.Esp32I2c.TransferByInterrupt` | driver/esp/esp_i2c.cpp:980-1004 | The interrupt-driven transfer as a caller sees it: waited for, it satisfies the contract of the polled one for prefix + payload; not waited for, it is left running with that goal. |
| `I2cEngine.EnginesAgree` | driver/esp/esp_i2c.cpp:466-932 | Both engines run from equal states: either trace is a first part of the other whatever fails, success of both leaves the same trace, device and buffer, and on a bus without failures both succeed. |
| `I2cEngine.BothCarried` | driver/esp/esp_i2c.cpp:803-932 | A write half followed by a read half on the bus, in the device and in the buffer is the whole transaction. |
| `I2cEngine.Esp32I2c.FinishAsync` | driver/esp/esp_i2c.cpp:625-664 | A running transaction is released and reported once; without one nothing happens. |
| `I2cEngine.Esp32I2c.Write` | driver/esp/esp_i2c.cpp:961-1017 | Bad address and busy bus change nothing; otherwise the bus is acquired, and released and reported exactly once or left to the interrupts; success means the whole trace. |
| `I2cEngine.Esp32I2c.Read` | driver/esp/esp_i2c.cpp:1019-1074 | The same for a read, whose buffer then holds exactly the device's answer. |
| `I2cEngine.Esp32I2c.SegmentOver` | driver/esp/esp_i2c.cpp:698-755 | The end of a running segment, good or bad, keeps the transaction going or ends it with one report of how the segment ended. |
| `I2cEngine.Esp32I2c.Run` | driver/esp/esp_i2c.cpp:366-464 | Over every run of calls, ends of segments and spurious interrupts each acquisition has at most one release and one report, exactly one when the bus is free, and whatever holds the bus can go on to its end. |
| `I2cMemory.StoredAt` | driver/esp/esp_i2c.cpp:1137-1163 | What a register file holds after a wrapping store of at most one round. |
| `I2cMemory.OneWrite` | driver/esp/esp_i2c.cpp:1137-1163 | One uncut transfer of register address and data stores the data from that address on, wrapping at 8 or 16 bits. |
| `I2cMemory.OneRead` | driver/esp/esp_i2c.cpp:1229-1244 | One uncut transfer of register address and repeated START reads the registers from that address on. |
| `I2cMemory.WriteChunks` | driver/esp/esp_i2c.cpp:1150-1161 | Two stores, the second at the 16-bit sum of address and length, are one store. |
| `I2cMemory.ReadChunks` | driver/esp/esp_i2c.cpp:1229-1244 | Two reads, the second from the 16-bit sum, are one read. |
| `I2cMemory.BrokenWrite` | driver/esp/esp_i2c.cpp:1150-1161 | A write broken off anywhere has stored exactly a first part of its data, in place. |
| `I2cMemory.BrokenRead` | driver/esp/esp_i2c.cpp:1229-1244 | A read broken off anywhere has stored nothing. |
| `I2cMemory.EmptyReadMovesNoPointer` | driver/esp/esp_i2c.cpp:1226-1244 | A polled read of zero bytes performs no transfer; that equals the one transfer if and only if the device was idle with its pointer at the address already. |
| `I2cMemory.EmptyReadAt16` | driver/esp/esp_i2c.cpp:1226-1244 | A pointer at 0 that the transfer would have set to 16. |
| `I2cEngine.Esp32I2c.ChunkIsEmpty` | driver/esp/esp_i2c.cpp:1138-1153 | Where the size check passes, the next chunk of a polled write is empty exactly for a FIFO of four bytes more than the register address. |
| `I2cEngine.Esp32I2c.ChunkOfFive` | driver/esp/esp_i2c.cpp:1138-1153 | A FIFO of five bytes, an address of one byte and one byte of data: an empty chunk. |
| `I2cEngine.Esp32I2c.MemWrite` | driver/esp/esp_i2c.cpp:1076-1167 | For every start address and length, polled or not: success leaves the registers as one uncut transfer would, across the end of the register file too; failure has stored a first part; the bus is released and reported once. Only the call that never returns is excluded. |
| `I2cEngine.Esp32I2c.MemWritePolled` | driver/esp/esp_i2c.cpp:1146-1161 | The loop of the polled write ends, also where no data fit into the FIFO and a transfer breaks; it has failed then. |
| `I2cEngine.Esp32I2c.StillAtTheStart` | driver/esp/esp_i2c.cpp:1149-1161 | Where no data fit and nothing breaks, no number of turns of that loop gets beyond the first byte. |
| `I2cEngine.Esp32I2c.MemRead` | driver/esp/esp_i2c.cpp:1169-1248 | For every start address and every length but zero the buffer and the device end up as after one uncut transfer; nothing is ever stored. |
| `UartMessages.BooksJoin` | src/core/libxr_rw.cpp:398-440 | A submission joins at the end of what is held and of what waits to be completed: the books of bytes and requests stay right. |
| `UartMessages.TakenOut` | driver/esp/esp_uart.cpp:417-424 | When the start of a request is refused, the bytes on the wire are exactly those of the requests before it, and the books without it are right. |
| `EspUart.Esp32Uart.DequeueTxToBuffer` | driver/esp/esp_uart.cpp:502-537 | Takes the first request; the DMA form copies exactly its bytes, the FIFO form leaves them in the data queue. |
| `EspUart.Esp32Uart.LoadActiveTxFromQueue` | driver/esp/esp_uart.cpp:467-480 | The first queued request becomes active; bytes sent and held stay the same. |
| `EspUart.Esp32Uart.LoadPendingTxFromQueue` | driver/esp/esp_uart.cpp:482-500 | The first queued request becomes pending; bytes and order stay the same. |
| `EspUart.Esp32Uart.PopToFifo` | driver/esp/esp_uart_fifo.cpp:82-112 | The next bytes of the active request move from the data queue to the wire, in order. |
| `EspUart.Esp32Uart.DmaTakes` | driver/esp/esp_uart_dma.cpp:399-405 | What the DMA channel takes from the buffer the patched descriptor names are the next bytes of the active request: bytes sent and held stay the same. |
| `EspUart.Esp32Uart.StartDmaTx` | driver/esp/esp_uart_dma.cpp:358-416 | The descriptor patched is the one the active buffer is mounted on, with the active length; false exactly when the channel refuses. |
| `EspUart.Esp32Uart.StartActiveTransfer` | driver/esp/esp_uart.cpp:539-571 | Starts the active request unless the transmitter is at work; a refused start leaves the driver not busy; neither backend gains or loses a byte. |
| `EspUart.Esp32Uart.TryStartTx` | driver/esp/esp_uart.cpp:432-465 | PENDING if and only if the driver was busy or nothing was queued; otherwise the one queued request is started, OK, or its start is refused and it is dropped, FAILED, and nothing waits behind it. Inside the completion interrupt always PENDING and no change. |
| `EspUart.Esp32Uart.Call` | src/core/libxr_rw.cpp:440-500 | An OK or FAILED answer is about the request just submitted, every earlier one being complete; PENDING leaves completion to the driver. |
| `EspUart.Esp32Uart.Submit` | src/core/libxr_rw.cpp:369-430 | BUSY exactly while another submitter is in between; an accepted request joins the order of submissions. |
| `EspUart.Esp32Uart.StartAndReportActive` | driver/esp/esp_uart.cpp:417-430 | The active request is started and completed, or refused and failed, once, whatever its callback submits; the books stay right either way. |
| `EspUart.Esp32Uart.OnTxTransferDone` | driver/esp/esp_uart.cpp:600-641 | After a good transfer exactly the next request in line is completed, or failed when refused, and idle again means empty unless something waits behind a refused one. After a DMA error the pending request fails, and nothing is queued if and only if nothing was and the callback of the failure gets nothing accepted. |
| `EspUart.ErrorLeavesTheQueue` | driver/esp/esp_uart.cpp:600-615 | Three submissions and a DMA error leave the third one in the queue of an idle driver. |
| `EspUart.RefusalStrandsTheNext` | driver/esp/esp_uart.cpp:417-424 | Three submissions, the second start refused, leave the third one pending in an idle driver. |
| `EspUart.Esp32Uart.FillTxFifoFromIsr` | driver/esp/esp_uart_fifo.cpp:52-124 | A request that is out completes at most the next one in line, and a request on its way keeps its interrupt enabled. |
| `EspUart.Esp32Uart.IdleMeansDone` | driver/esp/esp_uart.cpp:432-465 | An idle driver without a submitter in between has put every byte submitted on the wire, in order, and completed every request, in order, exactly once; for both backends. |
| `EspUart.Esp32Uart.Run` | driver/esp/esp_uart.cpp:417-641 | That and the invariant over every run of submissions, calls, interrupts, DMA progress, refused starts and DMA errors with callbacks that submit anything, up to the first error that leaves the driver astray. |
| `EspUart.Esp32Uart.RunDry` | driver/esp/esp_uart.cpp:600-641 | With a FIFO that has room again and again, or a DMA channel that goes on, finitely many interrupts bring the driver to rest with everything sent and completed, or it has gone astray, or more than any given number of requests have been accepted. |
| `EspCdcJtag.Esp32CdcJtag.LoadActiveTxFromQueue` | driver/esp/esp_cdc_jtag.cpp:163-180 | Slot A is free whenever it is used for the active request: nothing is pending then. |
| `EspCdcJtag.Esp32CdcJtag.LoadPendingTxFromQueue` | driver/esp/esp_cdc_jtag.cpp:182-205 | The pending request never shares a slot with the active one. |
| `EspCdcJtag.Esp32CdcJtag.PumpTx` | driver/esp/esp_cdc_jtag.cpp:207-235 | For any sequence of partial writes the bytes leave in order; true exactly when the request is out. |
| `EspCdcJtag.Esp32CdcJtag.StartAndReportActive` | driver/esp/esp_cdc_jtag.cpp:284-300 | The active request is completed first, the ones behind it after it; the recursion ends on what is outstanding, and with a FIFO that never fills and callbacks that keep submitting not before they stop. |
| `EspCdcJtag.Esp32CdcJtag.OnTxTransferDone` | driver/esp/esp_cdc_jtag.cpp:308-353 | However deep completions nest: order and bytes are kept, a pending request means an active one, idle means empty, and the interrupt is enabled while busy. |
| `EspCdcJtag.Esp32CdcJtag.TryStartTx` | driver/esp/esp_cdc_jtag.cpp:355-393 | OK if and only if the driver was idle with the one queued request, even when that is out before the call returns. |
| `EspCdcJtag.Esp32CdcJtag.HandleInterrupt` | driver/esp/esp_cdc_jtag.cpp:395-430 | Keeps the invariant; completions are only added. |
| `EspCdcJtag.Esp32CdcJtag.IdleMeansDone` | driver/esp/esp_cdc_jtag.cpp:355-393 | Idle means that everything submitted is on the wire and completed, in order. |
| `EspCdcJtag.Esp32CdcJtag.Run` | driver/esp/esp_cdc_jtag.cpp:207-430 | That over every run with arbitrary partial writes and callbacks that submit while they have credit. |
| `EspCdcJtag.Esp32CdcJtag.RunDry` | driver/esp/esp_cdc_jtag.cpp:395-430 | With a FIFO that takes something again and again, finitely many interrupts bring the driver to rest with everything sent and completed, or more than any given number of requests have been submitted. |
| `Mspm0UartMachine.NextInv` | driver/mspm0/mspm0_uart.cpp:505-558 | Every step of submitters, handler and hardware keeps bytes, order and the wake-up. |
| `Mspm0UartMachine.NoLostWakeUp` | driver/mspm0/mspm0_uart.cpp:177-183 | In every state of every run a waiting request, or one half sent, has the interrupt enabled and pending or a FIFO that will raise it, unless a submitter is in between or the handler runs; the branch for missing bytes is never reached. |
| `Mspm0UartMachine.StuckMeansSent` | driver/mspm0/mspm0_uart.cpp:505-558 | Where nothing but new submissions can happen, every byte is written, in order, and every request finished, in order. |
| `Mspm0UartMachine.FinishedMeansWritten` | driver/mspm0/mspm0_uart.cpp:550-556 | The bytes of the finished requests are the first bytes written: none is finished early. |
| `Mspm0UartLiveness.StepDecreases` | driver/mspm0/mspm0_uart.cpp:505-558 | Every step of submitters, handler and hardware lowers a measure, except the steps with which a full FIFO is waited for, which keep it. |
| `Mspm0UartLiveness.EverythingIsSent` | driver/mspm0/mspm0_uart.cpp:505-558 | Every execution in which the FIFO is not full for ever reaches, after finitely many steps, a state with everything submitted on the wire and finished, in order. |
| `Mspm0Uart.OthersStayAround` | driver/mspm0/mspm0_uart.cpp:505-558 | Whatever submitters and hardware do between two accesses of the handler is covered by the relation its methods are verified against. |
| `Mspm0Uart.HandlerStaysAround` | driver/mspm0/mspm0_uart.cpp:177-183 | Whatever handler and hardware do between two accesses of a submitter is covered likewise. |
| `Mspm0Uart.HandleDecreases` | driver/mspm0/mspm0_uart.cpp:505-558 | Every access of the handler lowers a measure that the others cannot raise without a new submission. |
| `Mspm0Uart.Mspm0Uart.HandleTxInterrupt` | driver/mspm0/mspm0_uart.cpp:505-558 | The program text follows the machine access by access and returns under every schedule; its FAILED branch is dead. |
| `Mspm0Uart.Mspm0Uart.WriteFun` | driver/mspm0/mspm0_uart.cpp:177-183 | Enabling before setting the status, with the handler running in between, keeps the invariant and answers PENDING. |
| `Mspm0Spi.TilingIsExact` | driver/mspm0/mspm0_spi.cpp:605-625 | A complete tiling has ceil(NEED/256) chunks of 1 to 256 bytes, in order, without gap or overlap, inside the length. |
| `Mspm0Spi.Mspm0Spi.StartDmaRxOnly` | driver/mspm0/mspm0_spi.cpp:182-209 | A chunk lies inside the RX buffer and clocks exactly its length. |
| `Mspm0Spi.Mspm0Spi.StartDmaTxOnly` | driver/mspm0/mspm0_spi.cpp:211-232 | Takes exactly the RX interrupts out of the mask and remembers which. |
| `Mspm0Spi.Mspm0Spi.StopDma` | driver/mspm0/mspm0_spi.cpp:234-252 | Both channels off and the mask as configured. |
| `Mspm0SpiLine.AllThrough` | driver/mspm0/mspm0_spi.cpp:628-648 | From empty FIFOs, as many bytes fetched as handed over mean that all frames are through: everything has been sent, what came in is the answer to it, and nothing is left over. |
| `Mspm0SpiLine.EndsReceiving` | driver/mspm0/mspm0_spi.cpp:628-648 | Whatever was left over before it, a DMA that has filled the RX buffer delivers a stretch of the stream that came in, and has sent a first part of its bytes at least. |
| `Mspm0SpiLine.ClockKeeps` | driver/mspm0/mspm0_spi.cpp:650-670 | Frames clocked after its end change nothing in what a transfer has done. |
| `Mspm0SpiLine.DeliveredAt` | driver/mspm0/mspm0_spi.cpp:589-601 | Byte by byte: first what the RX FIFO held, then every answer as many places late as frames were left over, none exactly when the line was clean. |
| `Mspm0Spi.AnswerOfAnother` | driver/mspm0/mspm0_spi.cpp:117-133 | A polled read that breaks off between sending and fetching makes the next one deliver the answer to its frame. |
| `Mspm0Spi.Mspm0Spi.Happen` | driver/mspm0/mspm0_spi.cpp:584-714 | Over any sequence of bytes handed over, clocked and fetched and of interrupts the invariant holds and a transfer ends at most once; a full-duplex one exactly when a tally of the sequence says so. |
| `Mspm0Spi.Mspm0Spi.HandleInterrupt` | driver/mspm0/mspm0_spi.cpp:584-714 | Which interrupts end a transfer, exactly; spurious ones change nothing; a transfer that ends is reported once with the mask as configured; one that ends well has been carried out on the line, has tiled a read exactly, and has delivered the bytes asked for; one that only sends leaves the RX FIFO empty and what is not clocked yet to be clocked. |
| `Mspm0Spi.Mspm0Spi.CompleteDmaOperation` | driver/mspm0/mspm0_spi.cpp:254-299 | A BLOCK wait ends idle, with no credit left, the mask as configured and at most one report, even when the transfer races the timeout; any other call returns OK with its transfer under way or over and reported, and a polled word at RUNNING either way. |
| `Mspm0Spi.Mspm0Spi.Polled` | driver/mspm0/mspm0_spi.cpp:254-260 | When a polled transfer is over its word still says RUNNING if and only if it went by DMA and was over before the call returned; in full duplex, if and only if the tally of what happened before the mark says that it was. |
| `Mspm0Spi.RunningForGood` | driver/mspm0/mspm0_spi.cpp:254-260 | A transfer that breaks off before its call marks it as running: reported, and RUNNING whatever happens later. |
| `Mspm0Spi.Mspm0Spi.PollingTransfer` | driver/mspm0/mspm0_spi.cpp:80-148 | Sends every byte in order and fetches as many, or reports TIMEOUT with a frame left over exactly when that was between sending and fetching; writes behind the RX buffer if and only if more bytes come in than fit. |
| `Mspm0Spi.Mspm0Spi.ReadAndWrite` | driver/mspm0/mspm0_spi.cpp:301-395 | BUSY and SIZE_ERR change nothing; otherwise the padded write is carried out on the line, whatever was left there, the caller's buffer gets the bytes that came in, the answers to this transfer exactly when nothing was left, and the transfer is reported at most once. |
| `Mspm0Spi.Mspm0Spi.MemRead` | driver/mspm0/mspm0_spi.cpp:449-510 | Sends the register number with bit 7 set and delivers what follows the first byte that comes in, on any line. |
| `Mspm0Spi.Mspm0Spi.MemWrite` | driver/mspm0/mspm0_spi.cpp:512-566 | Sends the register number with bit 7 clear and the data, for all data the TX buffer holds; the RX buffer is overrun if and only if the write is polled, that buffer is smaller, and the time lasts that far. |
| `Mspm0Spi.HandWriteOverruns` | driver/mspm0/mspm0_spi.cpp:551-556 | A polled write of one byte with an RX buffer of one byte overruns it. |
| `Mspm0Spi.Mspm0Spi.Run` | driver/mspm0/mspm0_spi.cpp:211-299 | Over every run of calls, frames and interrupts every transfer is reported at most once, exactly once unless it is under way or was waited for; whenever nothing is under way the mask is as configured; no credit is left. |
| `EspUsbFifo.TxSizeSuffices` | driver/esp/esp_usb.cpp:169-177 | The TX size calculated for a packet holds it, and no 16-bit size asks for more than 16384 words. |
| `EspUsbFifo.RxSizeSuffices` | driver/esp/esp_usb.cpp:113-128 | The RX size calculated for a packet holds it and never wraps. |
| `EspUsbFifo.Unpacked` | driver/esp/esp_usb.hpp:49-52 | A packed register gives start and size back. |
| `EspUsbFifo.RoomTestIsExact` | driver/esp/esp_usb_dev.cpp:618-623 | The 16-bit room test is right for every fill and every request if and only if the memory ends 16384 words below the 16-bit limit. |
| `EspUsbFifo.Esp32UsbFifo.ResetFifoState` | driver/esp/esp_usb_dev.cpp:295-305 | After a reset nothing is handed out. |
| `EspUsbFifo.Esp32UsbFifo.AllocateTxFifo` | driver/esp/esp_usb_dev.cpp:585-647 | Succeeds if and only if the limits allow it, what was handed out is large enough and what is missing fits; succeeding or not, the books stay right and nothing handed out moves. |
| `EspUsbFifo.Esp32UsbFifo.EnsureRxFifo` | driver/esp/esp_usb_dev.cpp:649-673 | Succeeds if and only if the FIFO is large enough already, or nothing lies behind it and the new size fits. |
| `EspUsbFifo.Esp32UsbFifo.RegionsApart` | driver/esp/esp_usb_dev.cpp:625-634 | The programmed regions form a prefix of the endpoints, lie behind the RX FIFO and each other, and end inside the memory. |
| `EspUsbFifo.Esp32UsbFifo.Run` | driver/esp/esp_usb_dev.cpp:585-673 | Prefix, sums, registers and the limit of five bound endpoints over every sequence of calls, failing ones included. |
| `Timebase.AtIsExact` | driver/st/stm32_timebase.cpp:50-77 | Tick and counter of one instant give the exact scaled time of that instant, modulo the 32-bit tick, for every period and all three formulas. |
| `Timebase.PassIsExact` | driver/ch/ch32_timebase.cpp:8-34 | With the interrupt in time, whatever four torn reads return is the exact time at an instant between the first and the last, for every duration below 2^32 periods. |
| `Timebase.RetryIsForSlowCalls` | driver/mspm0/mspm0_timebase.cpp:10-42 | A pass is repeated if and only if two or more ticks went by between its tick reads; never when it takes less than a period. |
| `Timebase.LateTick` | driver/ch/ch32_timebase.cpp:38 | A counter combined with a tick not up to date reads exactly a thousand microseconds early per period not counted, and is right if and only if none is missed. |
| `Timebase.LatePassReads` | driver/ch/ch32_timebase.cpp:8-34 | For every placement of the tick interrupt: a pass returns the exact time at the counter read it goes by, less a thousand microseconds per period not counted at its second tick read, and is repeated exactly when two or more were counted in between. |
| `Timebase.ExactIffCounted` | driver/mspm0/mspm0_timebase.cpp:10-42 | What a pass at least a microsecond shorter than a period returns is the exact time at an instant inside it if and only if the tick was up to date for that counter read. |
| `Timebase.LateTickRunsBackwards` | driver/ch/ch32_timebase.cpp:8-34 | 999 before the counter starts over, and 1 after it, while the interrupt waits. |
| `Timebase.NotBackwards` | driver/st/stm32_timebase.cpp:10-36 | Results of successive calls never decrease until the tick wraps. |
| `Timebase.Clock.GetMicroseconds` | driver/st/stm32_timebase.cpp:10-36 | The loop ends, and what it returns is off by exactly what is not counted yet; it is the exact time at an instant inside its last pass when the interrupt is in time, and for short passes only when the tick was up to date. |
| `Timebase.ElapsedAcrossTheWrap` | src/core/libxr_time.hpp:121-138 | Differences of readings less than a round apart are the true ones for all three forms, whether or not the tick wrapped. |
| `Timebase.SysTickLeavesTheRange` | driver/st/stm32_timebase.cpp:5-8 | The STM32 SysTick form exceeds its announced last value if and only if the last tick is in its last thousandth. |
| `Timebase.SysTickAtTheEnd` | driver/st/stm32_timebase.cpp:5-8 | The last cycle of a round reads one more than the announced last value. |
| `Timebase.Ch32LosesTheWrap` | driver/ch/ch32_timebase.cpp:6 | The CH32 clock announces 2^32-1, its bound being computed in 32 bits; its differences are right if and only if the later reading is not the smaller one. |
| `Timebase.Ch32AcrossTheWrap` | driver/ch/ch32_timebase.cpp:6 | Two microseconds across the wrap that do not come out as two. |
| `Mspm0Pwm.Split` | driver/mspm0/mspm0_pwm.cpp:71-87 | Divider 1 to 8 and prescaler 1 to 256 for every total up to 2048, covering it with the least prescaler. |
| `Mspm0Pwm.LoadFits` | driver/mspm0/mspm0_pwm.cpp:64-93 | Load at most 65535, and the realised cycles are the largest multiple of divider times prescaler within the period. |
| `Mspm0Pwm.DivTwice` | driver/mspm0/mspm0_pwm.cpp:87-91 | Dividing the clock by the product is dividing the cycles by divider times prescaler. |
| `Mspm0Pwm.Mspm0Pwm.SetConfig` | driver/mspm0/mspm0_pwm.cpp:56-103 | Accepts if and only if the period fits or its rounding wraps 32 bits; what it programs is right if and only if that did not happen; no other product exceeds the clock. |
| `Mspm0Pwm.OneHertz` | driver/mspm0/mspm0_pwm.cpp:56-103 | A period of 2^32 - 1 cycles is accepted and not realised. |

## Left out

- CanTxDriver.CanDriver.BuildTxMessage: header fields, identifier and DLC encoding are not modelled; a frame is carried as a value.
- CanTxDriver.CanDriver.AddMessage: error counters, filters and the receive side are not modelled.
- I2cEngine.Esp32I2c.StartAsyncTransaction: null-pointer and not-initialised errors are not modelled, because arrays and sequences cannot be null; the recovery of a stuck bus is one result, not its clock pulses.
- I2cEngine.Esp32I2c.Kick: the loop of the source runs at most twice, for the write phase and for the read phase; the model writes the two turns one after the other.
- I2cEngine.Esp32I2c.ExecuteTransaction: how long a segment may take before it counts as TIMEOUT is part of `fate`.
- EspUart.Esp32Uart.Run: what a driver does after it has gone astray, by a DMA error or a request stranded behind a refused start, is not followed.
- EspUart.Esp32Uart.Submit: preemption inside the push of bytes and entry, zero-length writes, Stream batches, BLOCK waiters and Reset of WritePort are not modelled.
- EspUart.Esp32Uart.FillTxFifo: the branch of FillTxFifo for a DMA driver that runs in the UART interrupt is not modelled, because that interrupt is not installed then.
- EspCdcJtag.Esp32CdcJtag.OnTxTransferDone: its error branch is not modelled; no caller of the driver takes it.
- Mspm0UartMachine.NoLostWakeUp: receive and timeout interrupts share the handler but no transmit state and are not modelled; SetConfig during a transfer is not either.
- Mspm0Spi.Mspm0Spi.MemWrite: what a byte written behind the RX buffer does to the memory there is not modelled.
- Mspm0Spi.Mspm0Spi.ReadAndWrite: Transfer, which is the same DMA or polled exchange without copies, is not modelled; the time limit of PollingTransfer is a number of waits.
- EspUsbFifo.Esp32UsbFifo.AllocateTxFifo: endpoint activation, flushing and the transfers themselves are not modelled.
- Timebase.Clock.GetMicroseconds: the millisecond clocks are plain reads of the tick.
- Mspm0Pwm.Mspm0Pwm.SetConfig: the duty cycle is floating-point and is not modelled.
- Linux, Wi-Fi, NVS, ADC, watchdog, flash and GPIO drivers, USB endpoint registers, and bit-timing, pin and clock set-up: register plumbing or calls into other systems.
- Memory orders weaker than sequential consistency.
