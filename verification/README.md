# Models of the DE0-Nano board software

This project models the parts of the DE0-Nano board software in which something can go wrong that no single function
shows: the interrupt-driven JTAG UART driver, the serial-flash stack from the board library down to the bytes on the SPI
wires, the bit-banged I2C master, the alarm list and the wall clock, the file-descriptor pool with its exclusive locks,
and the small printf functions. `dafny verify dfyconfig.toml` checks all of it.

| file | what it models |
|---|---|
| `Words.dfy`, `Bytes.dfy` | 32-bit words, error numbers; bytes, bitwise conjunction, shifts, a few facts about sequences |
| `JtagUart.dfy` | the JTAG UART driver as a transition system: writer, reader, interrupt routine, timer and host, one shared access a step |
| `UartDriver.dfy` | the same driver as code: buffers, indices, loops and the interrupt routine, with interference between any two statements; each statement is shown to be a step of the transition system |
| `EpcsChip.dfy`, `Spi.dfy`, `EpcsCommands.dfy`, `EpcsFlash.dfy` | a serial flash chip seen from its pins, the SPI byte engine, the command layer, and the flash driver |
| `TerasicFlash.dfy` | block geometry, block-wise writing and the flash self-check of the board library |
| `I2c.dfy` | the two wires, a slave that sees only the wires, the log of the bus, the master and its transfers |
| `I2cMonitor.dfy` | a bus monitor that knows only the rules of the bus, and what it makes of any sequence of calls |
| `Alarms.dfy` | alarms on a wrapping 32-bit counter against an unbounded clock, and the list walked by the tick |
| `WallClock.dfy` | gettimeofday and settimeofday |
| `FdPool.dfy` | descriptor table, exclusive locks, redirection, and every run of the calls on them |
| `Printf.dfy`, `LogFormat.dfy` | the integer conversions of both printf functions; the format strings of the logging one |

## Main results

- **JTAG UART.** In every interleaving no byte is lost, duplicated or reordered in either direction, a call reports
  exactly what it accepted or delivered, and no wake-up is lost: a thread never waits for an interrupt that is switched
  off. A blocking call gives up only if the host counted as gone while it waited, and a turn of the interrupt routine sends
  or receives all it can or switches its interrupt off.
- **Serial flash.** A write, through compare, erase, page splitting, command framing and the credit-driven byte engine,
  is one array update, against a chip that clears bits, wraps inside pages and knows only windows of bytes.
- **I2C.** Any sequence of calls from an idle bus, to a slave that may refuse any byte it is sent, leaves well-formed
  messages (UM10204, sections 3.1.3 to 3.1.6), from which a monitor recovers exactly the bytes and answers passed and
  returned, if and only if two exactly known things do not happen (below); and a slave driven by nothing but the wires
  stores and returns exactly the bytes meant.
- **Alarms.** Every firing of every alarm comes at exactly the right tick, for ever.
- **Descriptors.** Over all runs a device has at most one holder, and a device that is held cannot be opened.
- **printf.** Every integer conversion writes the numeral of its argument in its own base, padded as asked for, and a format
  string means what its pieces mean.

## Where the code does less than it says

Each of these is a theorem here, and where a condition is given it is exact.

- `alt_alarm_start` promises a firing after its argument for every argument; with 2^32 - 1 it holds only when the counter
  is about to wrap, otherwise the alarm fires at the next tick (`AlarmTime.StartIsExact`).
- `settimeofday` promises that a following `gettimeofday` returns the time set. It multiplies in 32 bits where the reading
  multiplies in 64; `WallClock.SetThenGet` says exactly when the promise holds.
- The clock runs evenly exactly for tick rates that divide a million (`WallClock.RunsLinearlyExactlyIfRateDivides`).
- The comments on `alt_fd_lock` promise a lock only to the sole user of a device. The scan stops before `alt_max_fd`;
  `FdTable.GrantedIsExclusiveExactlyOffTheMark` says exactly when a granted lock is exclusive, `FdTable.SharedLock` shows a
  run in which it is not. That at most one descriptor holds a device survives, because the holder is always the lowest.
- They also promise that closing the descriptor releases the lock. It does if and only if the descriptor is not a standard
  one (`FdTable.CloseReleasesExactlyAboveStandard`, with a run in `FdTable.StandardLockOutlivesClose`).
- A blocking read or write of length zero on the JTAG UART returns -EIO rather than 0
  (`UartDriver.Transmitter.Write`, `UartDriver.Receiver.Read`).
- `alt_epcs_flash_write` drops a part of the range beyond the device, or all of it if it begins outside, and reports success:
  `EpcsFlash.WriteIsCompleteExactlyInside`, with an input in `EpcsFlash.WriteOverrun`.
- `alt_epcs_flash_write_block` and `Flash_Write` report success for ranges that run past the end of the device. They succeed
  with every byte sent to its own address if and only if the range lies inside it (`EpcsFlash.EpcsDevice.WriteBlock`,
  `TerasicFlash.FlashWrite`, for ranges that are not empty). Otherwise the first goes on at the beginning of the device
  (`EpcsChip.AndAroundOverrun`), and the second drops the rest if the range begins no further than the start of the second
  block, and goes on at the beginning if not (`TerasicFlash.OverrunShows`); inputs for the two are in `TerasicFlash.CutOff`
  and `TerasicFlash.GoesRound`.
- `I2C_Read` restarts the bus after a refused device address or register address, which makes a start directly followed by
  a stop, a void message (UM10204, section 3.1.10, forbids it), exactly then: `I2cTransfers.VoidMessageWhenRefused`.
- `I2C_MultipleRead` of no bytes leaves the slave sending, and its stop condition is lost unless the first waiting bit is a
  one (`I2cTransfers.EmptyReadStops`).
- The logging printf reads a precision and ignores it (`LogFormat.PrecisionIsRead`, `LogFormat.FormatMeansItsPieces`).

## Assumptions about what is outside

- JTAG UART: RI shows only while RE is set, WI only while WE is set and the transmit FIFO has room; a read of the empty
  receive FIFO shows neither RVALID nor RAVAIL; both FIFOs hold 64 bytes; the host is held off while the receive FIFO is
  full. Threads do not run while the interrupt routine does. One writer and one reader are inside the driver at a time,
  which the semaphores provide.
- A blocking call ends because in the end the host counts as gone, or, with a timeout the counter never reaches (such as
  INT_MAX, set when no alarm can be started and the host is taken to be present), because the host in the end takes or
  sends a byte. One activation of the interrupt routine finds the control register showing work a finite number of times.
- SPI: RRDY shows only with an answer outstanding or a stale byte left; the controller reports progress after finitely many
  polls.
- Flash: the write-in-progress bit clears after finitely many status reads; the chip is what it reports to be; nothing
  else writes to it.
- I2C: the slave answers at once (no clock stretching) and has a 256-byte memory with an auto-incrementing pointer. It
  may refuse any byte it is sent, the device address and the register address included, in any pattern. Device addresses are
  even.
- Alarms: callbacks do not change the list. Descriptors: open, close and ioctl functions of drivers do not change the
  table, and the device and file-system lists are disjoint.
- Error numbers are those of newlib; `errno.h` is not part of this model. Flag words of descriptors are modelled as the
  two system bits and the caller's bits, since `alt_file.h` is not part of this model.

## Model

| member | source | states |
|---|---|---|
| `UartRing.FullOrEmpty` | `software/DE0_Nano_bsp/drivers/src/altera_avalon_jtag_uart_write.c:109-117` | the ring is full by its indices exactly when it holds one byte less than its buffer, and empty exactly when it holds none: the two are never confused |
| `UartRing.StoreBeyondTail` | `software/DE0_Nano_bsp/drivers/src/altera_avalon_jtag_uart_write.c:122` | filling slots between `tx_in` and the free space changes nothing the interrupt routine can see |
| `UartRing.PublishAppends` | `software/DE0_Nano_bsp/drivers/src/altera_avalon_jtag_uart_write.c:126` | moving `in` over `n` stored bytes appends exactly those bytes, also when the index wraps |
| `UartRing.ConsumeDrops` | `software/DE0_Nano_bsp/drivers/src/altera_avalon_jtag_uart_read.c:136-140` | moving `out` over `n` bytes takes exactly the `n` oldest bytes away, also when the index wraps |
| `UartRing.PutAppends` | `software/DE0_Nano_bsp/drivers/src/altera_avalon_jtag_uart_init.c:149-150` | one store and the advance of `in` append one byte |
| `UartTx.StoreKeeps` | `software/DE0_Nano_bsp/drivers/src/altera_avalon_jtag_uart_write.c:122` | one byte of the copy, made while the interrupt routine may have moved `tx_out` since the snapshot, keeps the flow of bytes and the free-slot claim |
| `UartTx.PublishKeeps` | `software/DE0_Nano_bsp/drivers/src/altera_avalon_jtag_uart_write.c:122-126` | publishing the copied run makes it the next accepted bytes and keeps the whole invariant |
| `UartTx.StepKeeps` | `software/DE0_Nano_bsp/drivers/src/altera_avalon_jtag_uart_write.c:100-202` | every statement of a write keeps: accepted = taken by the host + hardware FIFO + ring; the free-slot claim of the copy; and the wake-up condition (bytes with WE off only while this call has published and is still to set WE) |
| `UartTx.CallKeeps` | `software/DE0_Nano_bsp/drivers/src/altera_avalon_jtag_uart_write.c:98-100` | a new call starts from any finished one |
| `UartTx.WriterSurvivesPush` | `software/DE0_Nano_bsp/drivers/src/altera_avalon_jtag_uart_write.c:106-126` | the stale snapshots of a writer stay usable after the interrupt routine takes a byte |
| `UartTx.PushKeeps` | `software/DE0_Nano_bsp/drivers/src/altera_avalon_jtag_uart_init.c:174-184` | one turn of the transmit loop sends the oldest byte and keeps the invariant, given FIFO room |
| `UartTx.LastCall` | `software/DE0_Nano_bsp/drivers/src/altera_avalon_jtag_uart_write.c:199-202` | a writer outside the driver reports just the prefix it accepted, stopping short only with the ring full up to its sample and then only when non-blocking or the host is gone |
| `UartRx.PublishKeeps` | `software/DE0_Nano_bsp/drivers/src/altera_avalon_jtag_uart_read.c:136-142` | giving the copied slots back hands exactly the oldest bytes to the reader |
| `UartRx.StepKeeps` | `software/DE0_Nano_bsp/drivers/src/altera_avalon_jtag_uart_read.c:115-202` | every statement of a read keeps: sent by the host = delivered + ring + hardware FIFO; the slots being copied hold the oldest bytes; and RE is off only with the ring full or while this call has bytes and is still to set RE |
| `UartRx.CallKeeps` | `software/DE0_Nano_bsp/drivers/src/altera_avalon_jtag_uart_read.c:104-115` | a new call starts from any finished one |
| `UartRx.ReaderSurvivesPop` | `software/DE0_Nano_bsp/drivers/src/altera_avalon_jtag_uart_read.c:122-140` | a store by the interrupt routine never lands in a slot a stale snapshot is copying |
| `UartRx.PopKeeps` | `software/DE0_Nano_bsp/drivers/src/altera_avalon_jtag_uart_init.c:144-150` | a byte taken from the hardware goes to the end of the ring and keeps the invariant |
| `JtagUart.RunIsrKeeps` | `software/DE0_Nano_bsp/drivers/src/altera_avalon_jtag_uart_init.c:117-196` | every step of the interrupt routine keeps the invariant: it pops only what it can store, pushes only what the FIFO can take, clears RE only with the ring full and WE only with the ring empty |
| `JtagUart.NextKeeps` | `software/DE0_Nano_bsp/drivers/src/altera_avalon_jtag_uart_init.c:117-222` | so does every event of threads, timer and host |
| `JtagUart.InitHolds` | `software/DE0_Nano_bsp/drivers/src/altera_avalon_jtag_uart_init.c:66-97` | the initial state satisfies it |
| `JtagUart.Run` | `software/DE0_Nano_bsp/drivers/src/altera_avalon_jtag_uart_init.c:117-225` | the state any sequence of events leads to satisfies it |
| `JtagUart.NothingLostOrReordered` | `software/DE0_Nano_bsp/drivers/src/altera_avalon_jtag_uart_write.c:100-200` | in every interleaving: accepted = host + FIFO + transmit ring, and sent = delivered + receive ring + FIFO, in order; no ring wraps into empty |
| `JtagUart.WriteReportsAcceptedPrefix` | `software/DE0_Nano_bsp/drivers/src/altera_avalon_jtag_uart_write.c:106-202` | in every run a returned write reports the length of the prefix it accepted |
| `JtagUart.ReadReportsDeliveredBytes` | `software/DE0_Nano_bsp/drivers/src/altera_avalon_jtag_uart_read.c:122-202` | in every run a returned read hands over exactly the bytes delivered during the call; less than asked for only if its sample showed an empty ring, and blocking nothing only with the host declared gone |
| `JtagUart.WaitingWriterIsServed` | `software/DE0_Nano_bsp/drivers/src/altera_avalon_jtag_uart_write.c:136-188` | no lost wake-up: while a write spins on an unmoved `tx_out` the ring is full and WE is on; otherwise there is room |
| `JtagUart.WaitingReaderIsServed` | `software/DE0_Nano_bsp/drivers/src/altera_avalon_jtag_uart_read.c:173-195` | no lost wake-up: while a read spins on an unmoved `rx_in` the ring is empty and RE is on; otherwise there is data |
| `JtagUart.QuiescentBitsAreRight` | `software/DE0_Nano_bsp/drivers/src/altera_avalon_jtag_uart_init.c:156-194` | with no call in progress, bytes in the transmit ring mean WE is on, and RE off means the receive ring is full |
| `JtagUart.CloseDrains` | `software/DE0_Nano_bsp/drivers/src/altera_avalon_jtag_uart_init.c:241-254` | between writes, close succeeds on a live host only with the ring emptied, and waits only with WE on |
| `JtagUart.WriterStaysFreed` | `software/DE0_Nano_bsp/drivers/src/altera_avalon_jtag_uart_init.c:125-195` | whatever step comes next, a waiting writer for whom the ring has moved, or whom the routine is on its way to, stays so |
| `JtagUart.ControlShows` | `software/DE0_Nano_bsp/drivers/src/altera_avalon_jtag_uart_init.c:119-144` | what reading the control register leads to |
| `JtagUart.TransmitInterruptEndsWait` | `software/DE0_Nano_bsp/drivers/src/altera_avalon_jtag_uart_init.c:117-195` | every run: once the routine has been shown WI and has returned, whatever else happened meanwhile, the ring has moved on from the sample of a writer that waited all the while |
| `JtagUart.ReceiveInterruptEndsWait` | `software/DE0_Nano_bsp/drivers/src/altera_avalon_jtag_uart_init.c:117-167` | every run: once the routine has been shown RI with a byte to read and has returned, there is something for a reader that waited all the while |
| `JtagUart.WriterWaitCanEnd` | `software/DE0_Nano_bsp/drivers/src/altera_avalon_jtag_uart_init.c:169-184` | and from every wait of a writer such a run exists: the host takes one byte and the routine runs |
| `JtagUart.ReaderWaitCanEnd` | `software/DE0_Nano_bsp/drivers/src/altera_avalon_jtag_uart_init.c:125-154` | and from every wait of a reader: the host sends one byte and the routine runs |
| `JtagUart.ShortWriteMeansHostGone` | `software/DE0_Nano_bsp/drivers/src/altera_avalon_jtag_uart_write.c:141-202` | in every run, a blocking write that returns short waited on a full ring at a moment between its call and its return at which the host counted as gone |
| `JtagUart.EmptyReadMeansHostGone` | `software/DE0_Nano_bsp/drivers/src/altera_avalon_jtag_uart_read.c:144-203` | in every run, a blocking read that returns nothing waited on an empty ring at such a moment |
| `JtagUart.HostGoneAfterTimeout` | `software/DE0_Nano_bsp/drivers/src/altera_avalon_jtag_uart_init.c:204-225` | the host counts as gone after exactly as many ticks without activity as the timeout, if the counter can reach it, and not after one with |
| `JtagUart.TransmitTurnIsComplete` | `software/DE0_Nano_bsp/drivers/src/altera_avalon_jtag_uart_init.c:169-195` | every run: when the routine, having been shown WI and space for n bytes, is back at the control register, it has sent exactly n, or all there were and WE is off |
| `JtagUart.ReceiveTurnIsComplete` | `software/DE0_Nano_bsp/drivers/src/altera_avalon_jtag_uart_init.c:125-167` | every run: when it has done with the receive ring, having been shown RI, all that was waiting has been received, or the ring is full and RE is off |
| `UartDriver.Watch.Tick` | `software/DE0_Nano_bsp/drivers/src/altera_avalon_jtag_uart_init.c:204-225` | the activity counter: cleared by activity, otherwise one more, up to its limit |
| `UartDriver.Watch.Expired` | `software/DE0_Nano_bsp/drivers/src/altera_avalon_jtag_uart_write.c:183` | a look at the counter, recorded when it finds the host gone |
| `UartDriver.Transmitter.constructor` | `software/DE0_Nano_bsp/drivers/src/altera_avalon_jtag_uart_init.c:66-76` | the transmit half at initialisation satisfies the invariant |
| `UartDriver.Transmitter.ServeTransmit` | `software/DE0_Nano_bsp/drivers/src/altera_avalon_jtag_uart_init.c:169-195` | the WI block as a loop on the buffer: it sends as many bytes as there are and there is space for, and switches WE off exactly if space is left |
| `UartDriver.Transmitter.OldestFirst` | `software/DE0_Nano_bsp/drivers/src/altera_avalon_jtag_uart_init.c:174-178` | what has left the ring is the oldest of what has been accepted, in order |
| `UartDriver.Transmitter.StoreByte` | `software/DE0_Nano_bsp/drivers/src/altera_avalon_jtag_uart_write.c:122` | a store into the buffer is the copy step of the transition system |
| `UartDriver.Transmitter.PublishTail` | `software/DE0_Nano_bsp/drivers/src/altera_avalon_jtag_uart_write.c:126` | the assignment to `tx_in` is the publishing step |
| `UartDriver.Transmitter.EnableWrite` | `software/DE0_Nano_bsp/drivers/src/altera_avalon_jtag_uart_write.c:136-139` | the critical section is the enabling step; WE is set |
| `UartDriver.Transmitter.Sample` | `software/DE0_Nano_bsp/drivers/src/altera_avalon_jtag_uart_write.c:106-114` | the two snapshots find space whenever the ring had any when the first was taken |
| `UartDriver.Transmitter.CopyIn` | `software/DE0_Nano_bsp/drivers/src/altera_avalon_jtag_uart_write.c:122` | the copy loop, interrupted between any two bytes |
| `UartDriver.Transmitter.Fill` | `software/DE0_Nano_bsp/drivers/src/altera_avalon_jtag_uart_write.c:103-127` | the inner loop: what it accepts is the next part of the caller's buffer, it stops with the buffer exhausted or the ring full, and it makes progress if there was room |
| `UartDriver.Transmitter.Spin` | `software/DE0_Nano_bsp/drivers/src/altera_avalon_jtag_uart_write.c:183-184` | the wait ends, by a move of `tx_out` or by a look that found the host gone, and says which |
| `UartDriver.Transmitter.Write` | `software/DE0_Nano_bsp/drivers/src/altera_avalon_jtag_uart_write.c:83-202` | the whole call, with interrupts, ticks and the host between any two statements: it ends, for every timeout, returns the length of the accepted prefix or the right error, accepts something if there is room, and blocking accepts less than all only if a look while waiting found the host gone |
| `UartDriver.Receiver.constructor` | `software/DE0_Nano_bsp/drivers/src/altera_avalon_jtag_uart_init.c:66-76` | the receive half at initialisation, with RE on |
| `UartDriver.Receiver.ServeReceive` | `software/DE0_Nano_bsp/drivers/src/altera_avalon_jtag_uart_init.c:125-167` | the RI block as a loop on the buffer: it takes in all that was waiting and leaves RE alone, or fills the ring and switches RE off; it does the latter if not all of it fits |
| `UartDriver.Receiver.FirstSent` | `software/DE0_Nano_bsp/drivers/src/altera_avalon_jtag_uart_init.c:132-150` | what has reached the ring is the first of what the host has sent, in order |
| `UartDriver.Receiver.PublishHead` | `software/DE0_Nano_bsp/drivers/src/altera_avalon_jtag_uart_read.c:140` | the assignment to `rx_out` is the publishing step |
| `UartDriver.Receiver.Finish` | `software/DE0_Nano_bsp/drivers/src/altera_avalon_jtag_uart_read.c:188-202` | the critical section and the return value are the finishing step; RE is set if anything was read |
| `UartDriver.Receiver.Sample` | `software/DE0_Nano_bsp/drivers/src/altera_avalon_jtag_uart_read.c:122-128` | the two snapshots find data whenever the ring had any |
| `UartDriver.Receiver.CopyOut` | `software/DE0_Nano_bsp/drivers/src/altera_avalon_jtag_uart_read.c:136` | the copy loop, interrupted between any two bytes |
| `UartDriver.Receiver.Drain` | `software/DE0_Nano_bsp/drivers/src/altera_avalon_jtag_uart_read.c:120-142` | the inner loop: delivers the oldest bytes up to the caller's space, and something if there was anything |
| `UartDriver.Receiver.Spin` | `software/DE0_Nano_bsp/drivers/src/altera_avalon_jtag_uart_read.c:173-174` | the wait ends, by a move of `rx_in` or by a look that found the host gone, and says which |
| `UartDriver.Receiver.Read` | `software/DE0_Nano_bsp/drivers/src/altera_avalon_jtag_uart_read.c:100-203` | the whole call with interference between any two statements: it ends, for every timeout, hands over exactly the bytes it delivered, and some if there are any, and blocking returns none only with no space or if a look while waiting found the host gone |
| `UartDriver.Interrupt` | `software/DE0_Nano_bsp/drivers/src/altera_avalon_jtag_uart_init.c:106-197` | the interrupt routine over both halves, until the control register shows nothing: what it is shown first is served, nothing is taken back, WE goes off only with the transmit ring empty and RE only with the receive ring full |
| `UartDriver.Serve` | `software/DE0_Nano_bsp/drivers/src/altera_avalon_jtag_uart_init.c:125-195` | one round: what RI and WI each come to, exactly, and nothing for a bit that was not shown |
| `UartDriver.Close` | `software/DE0_Nano_bsp/drivers/src/altera_avalon_jtag_uart_init.c:241-254` | close as a loop: zero means everything accepted has left the ring unless a look found the host gone; without blocking it is zero exactly if the ring is empty or the host is gone |
| `EpcsChip.AndAtJoins` | `software/DE0_Nano_bsp/drivers/src/altera_avalon_epcs_flash_controller.c:426-437` | programming two adjacent ranges is programming their union |
| `EpcsChip.ProgrammedInsidePage` | `software/DE0_Nano_bsp/drivers/src/epcs_commands.c:189-254` | a page program that stays inside its page never shows the wrap-around of the chip |
| `EpcsChip.AndAtOnErased` | `software/DE0_Nano_bsp/drivers/src/altera_avalon_epcs_flash_controller.c:401-440` | on erased memory, clearing bits is copying |
| `EpcsChip.ProgrammedPieceIsAround` | `software/DE0_Nano_bsp/drivers/src/epcs_commands.c:189-254` | wherever a piece that stays in its page lands, the wrap-around of the page does not show |
| `EpcsChip.AndAroundJoins` | `software/DE0_Nano_bsp/drivers/src/altera_avalon_epcs_flash_controller.c:426-437` | programming a range piece by piece is programming it as a whole, also around the end of the device |
| `EpcsChip.AndAroundInside` | `software/DE0_Nano_bsp/drivers/src/altera_avalon_epcs_flash_controller.c:426-437` | inside the device nothing goes around |
| `EpcsChip.AddressOnDevice` | `software/DE0_Nano_bsp/drivers/src/epcs_commands.c:198-213` | an offset past the end reaches the chip as its place on the device |
| `EpcsChip.ReadOutInside` | `software/DE0_Nano_bsp/drivers/src/altera_avalon_epcs_flash_controller.c:447-470` | a read inside the device returns that part of memory |
| `EpcsChip.AddressRoundTrip` | `software/DE0_Nano_bsp/drivers/src/epcs_commands.c:72-87` | the three or four address bytes decode to the address meant |
| `Spi.SpiMaster.AwaitWork` | `software/DE0_Nano_bsp/drivers/src/altera_avalon_spi.c:82-87` | the poll ends with a byte to send or a byte received |
| `Spi.SpiMaster.Clock` | `software/DE0_Nano_bsp/drivers/src/altera_avalon_spi.c:78-118` | for every schedule of TRDY and RRDY: the bytes sent are the write data followed by zeros, and the bytes kept are the answers to the zeros (the bound on sent minus received and the dead `-1024` branch are inside the loop, not in the contract) |
| `Spi.SpiMaster.Command` | `software/DE0_Nano_bsp/drivers/src/altera_avalon_spi.c:41-134` | one transaction: what the chip sees and answers, and chip select held exactly when merging |
| `EpcsCommands.ReadStatusRegister` | `software/DE0_Nano_bsp/drivers/src/epcs_commands.c:35-50` | bit 0 is the write-in-progress bit |
| `EpcsCommands.AwaitWipReleased` | `software/DE0_Nano_bsp/drivers/src/epcs_commands.c:57-63` | the wait ends with no write in progress and memory unchanged |
| `EpcsCommands.WriteEnable` | `software/DE0_Nano_bsp/drivers/src/epcs_commands.c:155-167` | one WREN window, which sets the latch |
| `EpcsCommands.EnterFourByteMode` | `software/DE0_Nano_bsp/drivers/src/epcs_commands.c:293-311` | WREN and EN4B: the chip takes four-byte addresses |
| `EpcsCommands.ExitFourByteMode` | `software/DE0_Nano_bsp/drivers/src/epcs_commands.c:313-330` | WREN and DIS4B: the chip takes three-byte addresses |
| `EpcsCommands.EraseDecodes` | `software/DE0_Nano_bsp/drivers/src/epcs_commands.c:70-100` | the chip reads a sector-erase window as the erase of the sector meant |
| `EpcsCommands.ProgramDecodes` | `software/DE0_Nano_bsp/drivers/src/epcs_commands.c:196-238` | the chip reads command, address and data, sent in two calls in one window, as the page program meant |
| `EpcsCommands.ReadDecodes` | `software/DE0_Nano_bsp/drivers/src/epcs_commands.c:116-145` | the chip answers a read window with memory from the address on |
| `EpcsCommands.WritesOnTheWires` | `software/DE0_Nano_bsp/drivers/src/epcs_commands.c:65-93` | the windows of erase and program in literal bytes, the address most significant byte first |
| `EpcsCommands.ReadsOnTheWires` | `software/DE0_Nano_bsp/drivers/src/epcs_commands.c:110-147` | and those of a read |
| `EpcsCommands.SectorErase` | `software/DE0_Nano_bsp/drivers/src/epcs_commands.c:65-108` | memory is erased exactly in that sector; the windows, status reads apart, are WREN immediately before the erase, bracketed by the mode changes; the chip is left at rest in three-byte mode |
| `EpcsCommands.ReadBuffer` | `software/DE0_Nano_bsp/drivers/src/epcs_commands.c:110-153` | the bytes from `offset` on; it waits for a write in progress; memory and mode as before |
| `EpcsCommands.WriteBuffer` | `software/DE0_Nano_bsp/drivers/src/epcs_commands.c:190-254` | the page program of the chip, at any offset (past the end it comes around to the beginning); WREN immediately before it, status reads apart; one window for command and data; three-byte mode afterwards |
| `EpcsCommands.ReadElectronicSignature` | `software/DE0_Nano_bsp/drivers/src/epcs_commands.c:257-273` | the signature of the chip |
| `EpcsCommands.ReadDeviceId` | `software/DE0_Nano_bsp/drivers/src/epcs_commands.c:275-291` | the three identification bytes as one number |
| `EpcsFlash.PagesPartition` | `software/DE0_Nano_bsp/drivers/src/altera_avalon_epcs_flash_controller.c:426-437` | the pieces of a range are non-empty, each in one page, end to end, and joined they are the data |
| `EpcsFlash.PageStep` | `software/DE0_Nano_bsp/drivers/src/altera_avalon_epcs_flash_controller.c:428-436` | programming the first piece leaves the rest of the range to be programmed |
| `EpcsFlash.CompareStep` | `software/DE0_Nano_bsp/drivers/src/altera_avalon_epcs_flash_controller.c:227-231` | one chunk compares equal exactly when memory holds the source up to its end |
| `EpcsFlash.SectorByteIsLocal` | `software/DE0_Nano_bsp/drivers/src/altera_avalon_epcs_flash_controller.c:278-303` | what becomes of a sector depends only on its own part of the range |
| `EpcsFlash.WriteStoresSource` | `software/DE0_Nano_bsp/drivers/src/altera_avalon_epcs_flash_controller.c:256-322` | after a write, the part of the range inside the device holds the source, whatever the range |
| `EpcsFlash.WriteElsewhere` | `software/DE0_Nano_bsp/drivers/src/altera_avalon_epcs_flash_controller.c:282-303` | outside the range: untouched sectors as before; the rest of a touched sector as before if its part already matched, else 0xFF |
| `EpcsFlash.WriteIsCompleteExactlyInside` | `software/DE0_Nano_bsp/drivers/src/altera_avalon_epcs_flash_controller.c:256-322` | every byte of the source is stored exactly if the range lies inside the device, although every write reports success |
| `EpcsFlash.WriteOverrun` | `software/DE0_Nano_bsp/drivers/src/altera_avalon_epcs_flash_controller.c:276-322` | two bytes written at the last address: the second is dropped |
| `EpcsFlash.WriteTwice` | `software/DE0_Nano_bsp/drivers/src/altera_avalon_epcs_flash_controller.c:282-303` | writing the same data again changes nothing, anywhere |
| `EpcsFlash.EraseAndProgramByte` | `software/DE0_Nano_bsp/drivers/src/altera_avalon_epcs_flash_controller.c:290-303` | erasing a sector and programming its part of the range gives exactly what the write promises for it |
| `EpcsFlash.EpcsDevice.Identify` | `software/DE0_Nano_bsp/drivers/src/altera_avalon_epcs_flash_controller.c:94-179` | recognised are exactly five signatures and two last bytes of the id; the code gives the capacity as a power of two and the sector size; blocks tile the region; four-byte mode exactly above 2^24 bytes; -ENODEV for any other chip |
| `EpcsFlash.GeometryFollowsCodes` | `software/DE0_Nano_bsp/drivers/src/altera_avalon_epcs_flash_controller.c:94-179` | the table of devices follows that law |
| `EpcsFlash.EpcsDevice.Query` | `software/DE0_Nano_bsp/drivers/src/altera_avalon_epcs_flash_controller.c:80-188` | the same of the device it sets up; a recognised chip that is what it says becomes a usable one |
| `EpcsFlash.EpcsDevice.TestAddressIsExact` | `software/DE0_Nano_bsp/drivers/src/altera_avalon_epcs_flash_controller.c:356-376` | the unsigned comparison admits exactly the addresses of the device, negative ones included |
| `EpcsFlash.EpcsDevice.EraseBlock` | `software/DE0_Nano_bsp/drivers/src/altera_avalon_epcs_flash_controller.c:384-399` | erases the sector or reports -EIO with memory unchanged |
| `EpcsFlash.EpcsDevice.ProgramPages` | `software/DE0_Nano_bsp/drivers/src/altera_avalon_epcs_flash_controller.c:426-437` | the page loop ends and its effect is that of programming the range without pages, going on at the beginning past the end of the device; the commands sent are those of the pieces |
| `EpcsChip.AndAroundOverrun` | `software/DE0_Nano_bsp/drivers/src/altera_avalon_epcs_flash_controller.c:426-437` | a range that runs past the end of the device is programmed up to the end and then over the beginning |
| `EpcsFlash.SentInPlaceExactlyInside` | `software/DE0_Nano_bsp/drivers/src/altera_avalon_epcs_flash_controller.c:409-437` | pieces laid end to end that make a first part of a range send every byte once to its own address exactly if they are the whole range and it lies inside the device |
| `EpcsFlash.PagesInPlaceExactlyInside` | `software/DE0_Nano_bsp/drivers/src/altera_avalon_epcs_flash_controller.c:409-437` | the page programs of a range do so exactly if it lies inside the device |
| `EpcsFlash.EpcsDevice.WriteBlock` | `software/DE0_Nano_bsp/drivers/src/altera_avalon_epcs_flash_controller.c:409-440` | the same with the address check, for every range: inside the device it is a plain clearing of bits, and what runs past the end lands at the beginning; it succeeds with every byte sent to its own address if and only if the range lies inside the device |
| `EpcsFlash.EpcsDevice.Read` | `software/DE0_Nano_bsp/drivers/src/altera_avalon_epcs_flash_controller.c:447-470` | the bytes from `offset` on, around the end of the device; -EIO only for a start outside |
| `EpcsFlash.EpcsDevice.Compare` | `software/DE0_Nano_bsp/drivers/src/altera_avalon_epcs_flash_controller.c:190-241` | zero exactly when memory holds the buffer |
| `EpcsFlash.EpcsDevice.UpdateSector` | `software/DE0_Nano_bsp/drivers/src/altera_avalon_epcs_flash_controller.c:282-303` | one sector brought to its promised state, every other byte unchanged |
| `EpcsFlash.EpcsDevice.VisitBlock` | `software/DE0_Nano_bsp/drivers/src/altera_avalon_epcs_flash_controller.c:276-316` | one turn of the block loop brings one more sector to its promised state |
| `EpcsFlash.EpcsDevice.WriteRegion` | `software/DE0_Nano_bsp/drivers/src/altera_avalon_epcs_flash_controller.c:274-316` | the block loop writes the range, as far as it lies in the region |
| `EpcsFlash.EpcsDevice.Write` | `software/DE0_Nano_bsp/drivers/src/altera_avalon_epcs_flash_controller.c:256-322` | the whole stack, from the call down to the bits on the wires, is the array update described above; it always reports success, and has stored everything exactly if the range lies inside the device |
| `TerasicFlash.GetBlockInfo` | `software/DE0_Nano/terasic_lib/flash.c:123-153` | found exactly for the indices of existing blocks, over any table of regions; the offset is the total size of the blocks before in 32-bit arithmetic, so the blocks tile up to 2^31 bytes |
| `TerasicFlash.GetBlockCount` | `software/DE0_Nano/terasic_lib/flash.c:249-259` | the number of blocks in 16 bits, so exact below 65536 |
| `TerasicFlash.NextBlocks` | `software/DE0_Nano/terasic_lib/flash.c:134-145` | the blocks of a region follow those of the regions before it |
| `TerasicFlash.ThisWriteSize` | `software/DE0_Nano/terasic_lib/flash.c:196-205` | every piece stays inside the range and ends with it or with its block; a first block that ends before the range begins does not shorten it (the comparison is unsigned) |
| `TerasicFlash.VisitForWrite` | `software/DE0_Nano/terasic_lib/flash.c:190-215` | one turn of the block loop sends the next part of the range, once, to its own address |
| `TerasicFlash.FlashWrite` | `software/DE0_Nano/terasic_lib/flash.c:167-227` | the block writes lie end to end from `offset`, and it succeeds with every byte sent once to its own address if and only if the range lies inside the device; any other range is refused if it begins beyond the device, and otherwise reported as written, cut off at the end or, if it begins beyond the first block, continued at the beginning |
| `TerasicFlash.OverrunShows` | `software/DE0_Nano/terasic_lib/flash.c:188-216` | the two outcomes of a range that runs past the end: cut off, or continued over the beginning |
| `TerasicFlash.CutOff` | `software/DE0_Nano/terasic_lib/flash.c:188-216` | an input for the first: the last byte is not sent |
| `TerasicFlash.GoesRound` | `software/DE0_Nano/terasic_lib/flash.c:188-216` | an input for the second: the second of two bytes is written over address 0 |
| `TerasicFlash.WalkEnds` | `software/DE0_Nano/terasic_lib/flash.c:189-217` | how much of a range the walk over the blocks has sent when it ends |
| `TerasicFlash.FlashErase` | `software/DE0_Nano/terasic_lib/flash.c:229-247` | erases the block of that index, or fails with memory unchanged if there is none |
| `TerasicFlash.FillBlock` | `software/DE0_Nano/terasic_lib/flash.c:342-360` | a block receives the counting pattern, a buffer at a time |
| `TerasicFlash.CheckBlock` | `software/DE0_Nano/terasic_lib/flash.c:385-412` | passes exactly when the block holds the pattern |
| `TerasicFlash.VisitedByBlocks` | `software/DE0_Nano/terasic_lib/flash.c:317-319` | a block is visited as a whole, and in quick mode only the first and the last |
| `TerasicFlash.PatternIsTestByte` | `software/DE0_Nano/terasic_lib/flash.c:329-361` | the byte at each visited address is the counter after the visited addresses before it |
| `TerasicFlash.EraseStep` | `software/DE0_Nano/terasic_lib/flash.c:316-327` | one block of the erase pass |
| `TerasicFlash.FillStep` | `software/DE0_Nano/terasic_lib/flash.c:329-362` | one block of the write pass |
| `TerasicFlash.TestBytesCountUp` | `software/DE0_Nano/terasic_lib/flash.c:335-337` | the test bytes count up by one, modulo 256, from the start value on, and in quick mode on from the first block to the last |
| `TerasicFlash.CheckStep` | `software/DE0_Nano/terasic_lib/flash.c:370-414` | a visited block passes the comparison exactly if its addresses hold their test bytes |
| `TerasicFlash.CheckBlocks` | `software/DE0_Nano/terasic_lib/flash.c:370-416` | whatever the device holds, the reading pass succeeds exactly if every visited address holds its test byte |
| `TerasicFlash.FlashVerify` | `software/DE0_Nano/terasic_lib/flash.c:287-422` | on a device that may lose what was written, the check passes exactly if what is read back is the pattern; so it passes on a working device, full and quick, for every initial value, and leaves the pattern in the blocks it visits and the others untouched |
| `I2cMaster.StartCondition` | `software/DE0_Nano/terasic_lib/I2C.c:204-220` | from a quiet bus: one start condition and nothing else on the wires |
| `I2cMaster.StopCondition` | `software/DE0_Nano/terasic_lib/I2C.c:223-236` | one stop condition, exactly unless the slave is holding SDA low |
| `I2cMaster.WriteByte` | `software/DE0_Nano/terasic_lib/I2C.c:238-275` | the wires carry the eight bits of the byte, most significant first, and the acknowledge slot; the slave has taken exactly that byte; the result is its acknowledge |
| `I2cMaster.ReadByte` | `software/DE0_Nano/terasic_lib/I2C.c:277-313` | the byte returned is the one the slave sent, and the slave sees the answer asked for |
| `I2cTransfers.MultipleWrite` | `software/DE0_Nano/terasic_lib/I2C.c:128-156` | a write is start, frames up to the first one refused, stop; the bus is idle again |
| `I2cTransfers.MultipleRead` | `software/DE0_Nano/terasic_lib/I2C.c:158-193` | a read is start, two frames, repeated start, address frame, data frames, stop; it stops early on a refusal |
| `I2cTransfers.Write` | `software/DE0_Nano/terasic_lib/I2C.c:67-94` | a single write is a write of one byte |
| `I2cTransfers.Read` | `software/DE0_Nano/terasic_lib/I2C.c:96-125` | a single read on the wires is the transfer the next two rows are about |
| `I2cTransfers.SingleReadReturnsByte` | `software/DE0_Nano/terasic_lib/I2C.c:96-125` | from a slave that takes the three bytes before the data it returns the byte at the address and changes nothing |
| `I2cTransfers.SingleReadRefused` | `software/DE0_Nano/terasic_lib/I2C.c:103-122` | with its address or the register address refused it fails, returns nothing, and leaves the frames up to the refusal, a start and the stop |
| `I2cTransfers.EmptyReadOnTheWires` | `software/DE0_Nano/terasic_lib/I2C.c:166-189` | everything a read of no bytes leaves on the wires |
| `I2cTransfers.FrameDecodes` | `software/DE0_Nano/terasic_lib/I2C.c:247-273` | a monitor recovers the byte and the answer from the nine levels of a frame |
| `I2cTransfers.DeliveryIsFrames` | `software/DE0_Nano/terasic_lib/I2C.c:238-275` | between start and stop SDA never changes while SCL is high: whole frames of nine levels, whatever the slave does |
| `I2cTransfers.FetchIsFrames` | `software/DE0_Nano/terasic_lib/I2C.c:277-313` | the same for the bytes of a read |
| `I2cTransfers.DeliveryStopsAtRefusal` | `software/DE0_Nano/terasic_lib/I2C.c:133-148` | whatever the slave answers, the bytes sent are acknowledged up to the first one refused, and that is the last one sent |
| `I2cTransfers.DataDelivery` | `software/DE0_Nano/terasic_lib/I2C.c:141-148` | the data bytes taken are stored in order, up to the first one the slave has no room for or refuses |
| `I2cTransfers.WriteToSlave` | `software/DE0_Nano/terasic_lib/I2C.c:128-156` | for any slave, everything on the wires and everything stored by a write, whichever of its bytes is the first refused; the stop condition always comes |
| `I2cTransfers.WriteRefused` | `software/DE0_Nano/terasic_lib/I2C.c:133-149` | with its address or the register address refused, a write stores nothing and ends there |
| `I2cTransfers.FetchedAnswers` | `software/DE0_Nano/terasic_lib/I2C.c:184-187` | every byte of a read but the last is acknowledged, the last is not |
| `I2cTransfers.ReadFromSlave` | `software/DE0_Nano/terasic_lib/I2C.c:158-193` | the bytes of a read are those at successive addresses, if the slave takes the three bytes before them |
| `I2cTransfers.ReadSucceeds` | `software/DE0_Nano/terasic_lib/I2C.c:158-193` | a read succeeds exactly if the slave takes the device address, the register address and the read address |
| `I2cTransfers.ReadAddressRefused` | `software/DE0_Nano/terasic_lib/I2C.c:178-189` | with the read address refused it ends there |
| `I2cTransfers.ReadOnTheWires` | `software/DE0_Nano/terasic_lib/I2C.c:158-193` | every frame of a read on the wires |
| `I2cTransfers.BlockRoundTrip` | `software/DE0_Nano/terasic_lib/I2C.c:128-193` | for any slave, a write of up to 256 bytes followed by a read of the same addresses returns them whenever both report success |
| `I2cTransfers.BlockRoundTripSucceeds` | `software/DE0_Nano/terasic_lib/I2C.c:128-193` | they do if the slave is addressed, has room and refuses nothing |
| `I2cTransfers.EmptyReadStops` | `software/DE0_Nano/terasic_lib/I2C.c:183-189` | a read of no bytes gets its stop condition through exactly when it is refused or the first bit waiting on the wire is a one |
| `I2cTransfers.VoidMessageWhenRefused` | `software/DE0_Nano/terasic_lib/I2C.c:112-122` | a single read puts a start directly before its stop exactly when its address or the register address was refused |
| `I2cTransfers.MultipleReadRefused` | `software/DE0_Nano/terasic_lib/I2C.c:167-189` | a longer read ends at the refusal, without the restart |
| `I2cMonitor.FrameIsRead` | `software/DE0_Nano/terasic_lib/I2C.c:247-273` | a monitor that knows only the bus rules makes of a frame the byte and the answer it was made from |
| `I2cMonitor.WriteIsMessage` | `software/DE0_Nano/terasic_lib/I2C.c:128-156` | it reads every write to any slave as one message: the bytes passed, up to the first refused, with the answers of the slave |
| `I2cMonitor.ReadIsMessage` | `software/DE0_Nano/terasic_lib/I2C.c:158-193` | it reads every read that is answered as one message: two bytes, a repeated start, the read address, and the bytes returned, all acknowledged but the last |
| `I2cMonitor.RefusedReadIsMessage` | `software/DE0_Nano/terasic_lib/I2C.c:158-193` | and every multiple read that is refused: the bytes up to the refusal |
| `I2cMonitor.CallIsMessage` | `software/DE0_Nano/terasic_lib/I2C.c:67-193` | every call leaves one complete message, unless it is a single read refused before its restart or a read of no bytes that leaves the bus held |
| `I2cMonitor.VoidMessageBreaks` | `software/DE0_Nano/terasic_lib/I2C.c:103-122` | the first of those leaves something that is no message |
| `I2cMonitor.LogIsWellFormedExactlyWithoutTrouble` | `software/DE0_Nano/terasic_lib/I2C.c:67-313` | any sequence of calls from an idle bus, and a slave with any memory that may refuse any byte: the log is a sequence of well-formed messages if and only if none of those two happened; and then the monitor reports exactly the bytes and answers passed and returned, call by call |
| `I2cMonitor.MakeCall` | `software/DE0_Nano/terasic_lib/I2C.c:67-193` | each call on the wires is the outcome the theorem speaks of |
| `I2cMonitor.MakeCalls` | `software/DE0_Nano/terasic_lib/I2C.c:67-193` | and so is any sequence of them, results included |
| `AlarmTime.PredictionHolds` | `software/DE0_Nano_bsp/HAL/src/alt_tick.c:105-111` | the tick at which an alarm will fire, told from its fields, is right, and stays right until it does |
| `AlarmTime.PunctualStays` | `software/DE0_Nano_bsp/HAL/src/alt_tick.c:105-111` | an alarm fires with the counter at its time, not beyond it |
| `AlarmTime.StartIsExact` | `software/DE0_Nano_bsp/HAL/src/alt_alarm_start.c:80-98` | an alarm started with n fires first on exactly the (n+1)-th later tick if and only if n is not 2^32 - 1 or the counter is about to wrap; otherwise at the very next tick |
| `AlarmTime.RescheduleIsExact` | `software/DE0_Nano_bsp/HAL/src/alt_tick.c:121-133` | every non-zero result p reschedules exactly p ticks later |
| `AlarmList.ArmedFiresWhenDue` | `software/DE0_Nano_bsp/HAL/src/alt_tick.c:95-137` | a tick makes the callback of an armed alarm exactly if it is due, and leaves it armed for the right tick |
| `AlarmList.AlwaysOnTime` | `software/DE0_Nano_bsp/HAL/src/alt_tick.c:87-137` | over any number of ticks and roll-overs every firing comes exactly when due |
| `AlarmList.QuietUntilDue` | `software/DE0_Nano_bsp/HAL/src/alt_tick.c:95-111` | nothing happens before |
| `AlarmList.FirstFiring` | `software/DE0_Nano_bsp/HAL/src/alt_alarm_start.c:80-98` | the first firing of a started alarm, as a whole run |
| `AlarmList.Alarm.OnTick` | `software/DE0_Nano_bsp/HAL/src/alt_tick.c:105-135` | one turn of the walk is the step the lemmas are about |
| `AlarmList.Clock.Start` | `software/DE0_Nano_bsp/HAL/src/alt_alarm_start.c:64-112` | starting an alarm that is not listed: fields, list and error codes, and when the result is armed |
| `AlarmList.Clock.WalkThrough` | `software/DE0_Nano_bsp/HAL/src/alt_tick.c:95-137` | the walk visits each listed alarm once and unlinks those that are done, while walking |
| `AlarmList.Clock.Tick` | `software/DE0_Nano_bsp/HAL/src/alt_tick.c:87-144` | one tick: each alarm on the list fires exactly if due, independently of the others, and stays listed exactly if its callback asked for more |
| `AlarmList.Clock.Stop` | `software/DE0_Nano_bsp/HAL/src/alt_tick.c:66-73` | unlinking an alarm leaves the others as they are |
| `WallClock.Normalised` | `software/DE0_Nano_bsp/HAL/src/alt_gettod.c:95-112` | the microseconds of a reading lie in 0..999999 |
| `WallClock.Clock.GetTimeOfDay` | `software/DE0_Nano_bsp/HAL/src/alt_gettod.c:79-124` | the loops compute the normal form, or the epoch when a negative microsecond part cannot be made up for |
| `WallClock.Clock.SetTimeOfDay` | `software/DE0_Nano_bsp/HAL/src/alt_settod.c:72-96` | the reset time it stores, or -1 and ENOSYS without a clock; both arguments given |
| `WallClock.TicksAddUp` | `software/DE0_Nano_bsp/HAL/src/alt_gettod.c:91-93` | seconds and microseconds of the ticks add up, and to exactly what the ticks are worth, when the rate divides a million |
| `WallClock.RunsLinearlyExactlyIfRateDivides` | `software/DE0_Nano_bsp/HAL/src/alt_gettod.c:91-93` | and only then |
| `WallClock.ReadingIsLinear` | `software/DE0_Nano_bsp/HAL/src/alt_gettod.c:91-112` | the reading is the reset time plus the ticks |
| `WallClock.TruncationModuloMillion` | `software/DE0_Nano_bsp/HAL/src/alt_settod.c:83-84` | the 32-bit product does no harm exactly if what is cut off is a multiple of 15625 words |
| `WallClock.SetThenGet` | `software/DE0_Nano_bsp/HAL/src/alt_settod.c:82-84` | a time set is read back exactly if the two products agree, or it is the epoch and the error is clamped away |
| `WallClock.SetThenGetWhileProductFits` | `software/DE0_Nano_bsp/HAL/src/alt_settod.c:82-84` | in particular while the product fits 32 bits |
| `WallClock.SetThenGetFailsAfterOverflow` | `software/DE0_Nano_bsp/HAL/src/alt_settod.c:82-84` | a case where it is not read back |
| `FdTable.FirstFree` | `software/DE0_Nano_bsp/HAL/src/alt_get_fd.c:77-89` | the lowest free descriptor, or none |
| `FdTable.InitialIsKept` | `software/DE0_Nano_bsp/HAL/src/alt_dev.c:118-149` | the table at power-up satisfies the invariant |
| `FdTable.AtMostOneHolder` | `software/DE0_Nano_bsp/HAL/src/alt_open.c:64-92` | two holders of one device are one descriptor |
| `FdTable.ReleaseKeeps` | `software/DE0_Nano_bsp/HAL/src/alt_release_fd.c:44-51` | releasing keeps the invariant |
| `FdTable.ScanIsComplete` | `software/DE0_Nano_bsp/HAL/src/alt_open.c:79-87` | the scan up to the mark finds a holder exactly if there is one in the whole table |
| `FdTable.OpenKeeps` | `software/DE0_Nano_bsp/HAL/src/alt_open.c:105-171` | open keeps the invariant; it succeeds exactly if the name is found, a descriptor is free, nobody holds the device and the driver agrees; it takes the lowest free descriptor; a failed open leaves every descriptor in the use it was |
| `FdTable.CloseUndoesOpen` | `software/DE0_Nano_bsp/HAL/src/alt_close.c:64-101` | closing what an open returned leaves every descriptor in the use it was |
| `FdTable.ScanMissesTheMark` | `software/DE0_Nano_bsp/HAL/src/alt_fd_lock.c:61-68` | the scan of the lock finds another user exactly if there is one that is not at `alt_max_fd` |
| `FdTable.LockKeeps` | `software/DE0_Nano_bsp/HAL/src/alt_fd_lock.c:54-75` | a granted lock keeps the invariant: its holder is the lowest user of its device |
| `FdTable.UnlockKeeps` | `software/DE0_Nano_bsp/HAL/src/alt_fd_unlock.c:52-56` | so does an unlock |
| `FdTable.UnlockReleases` | `software/DE0_Nano_bsp/HAL/src/alt_fd_unlock.c:52-56` | an unlock by the holder succeeds, and nobody holds the device any more; nothing else changes |
| `FdTable.UnlockedCanBeOpened` | `software/DE0_Nano_bsp/HAL/src/alt_fd_unlock.c:37-45` | after it the device can be opened again |
| `FdTable.UnlockUndoesLock` | `software/DE0_Nano_bsp/HAL/src/alt_fd_unlock.c:37-56` | an unlock undoes the lock before it |
| `FdTable.IoctlTouchesOnlyTheLock` | `software/DE0_Nano_bsp/HAL/src/alt_ioctl.c:106-168` | every other request is answered by the driver and changes nothing; a lock or unlock changes that one flag |
| `FdTable.RedirectKeeps` | `software/DE0_Nano_bsp/HAL/src/alt_io_redirect.c:58-72` | a redirection keeps the invariant, releases the temporary descriptor, changes no other, and leaves the target alone if the open fails |
| `FdTable.StepKeeps` | `software/DE0_Nano_bsp/HAL/src/alt_open.c:105-171` | every call keeps the invariant |
| `FdTable.EveryRunIsKept` | `software/DE0_Nano_bsp/HAL/src/alt_open.c:64-171` | in every run from power-up: at most one holder per device, no descriptor in use above max(2, `alt_max_fd`), descriptors 0 to 2 never free |
| `FdTable.LockExcludesOpens` | `software/DE0_Nano_bsp/HAL/src/alt_fd_lock.c:43-48` | from a lock until its holder gives it up, over any calls: it stays, nobody new uses the device, and every open of it fails, with EACCES if a descriptor was free |
| `FdTable.GrantedIsExclusiveExactlyOffTheMark` | `software/DE0_Nano_bsp/HAL/src/alt_fd_lock.c:61-69` | a granted lock is exclusive if and only if the descriptor at `alt_max_fd` is not another user of the device |
| `FdTable.SoleUserIsGranted` | `software/DE0_Nano_bsp/HAL/src/alt_fd_lock.c:43-45` | a sole user is always granted the lock |
| `FdTable.SharedLock` | `software/DE0_Nano_bsp/HAL/src/alt_fd_lock.c:61-69` | a run from power-up in which a lock is granted although another descriptor uses the device |
| `FdTable.CloseReleasesExactlyAboveStandard` | `software/DE0_Nano_bsp/HAL/src/alt_close.c:64-101` | closing the holder of a device releases the device if and only if the descriptor is not a standard one |
| `FdTable.CloseReports` | `software/DE0_Nano_bsp/HAL/src/alt_close.c:64-101` | a close reports the error of the driver, and frees the descriptor all the same unless it is a standard one |
| `FdTable.OpenReports` | `software/DE0_Nano_bsp/HAL/src/alt_open.c:105-172` | why an open fails: no such device, no free descriptor, a lock, the driver, in this order, with the error number of each |
| `FdTable.StandardLockOutlivesClose` | `software/DE0_Nano_bsp/HAL/src/alt_release_fd.c:44-51` | a run from power-up in which a lock taken through standard output survives its close |
| `FdTable.FdList.constructor` | `software/DE0_Nano_bsp/HAL/src/alt_dev.c:118-149` | the table at power-up |
| `FdTable.FdList.GetFd` | `software/DE0_Nano_bsp/HAL/src/alt_get_fd.c:54-101` | the allocation loop |
| `FdTable.FdList.FileLocked` | `software/DE0_Nano_bsp/HAL/src/alt_open.c:64-92` | the scan for a holder |
| `FdTable.FdList.ReleaseFd` | `software/DE0_Nano_bsp/HAL/src/alt_release_fd.c:44-51` | 0 to 2 are never released |
| `FdTable.FdList.OpenCall` | `software/DE0_Nano_bsp/HAL/src/alt_open.c:105-171` | open on the table is the open the lemmas are about, results and error numbers included |
| `FdTable.FdList.CloseCall` | `software/DE0_Nano_bsp/HAL/src/alt_close.c:64-101` | close likewise |
| `FdTable.FdList.Lock` | `software/DE0_Nano_bsp/HAL/src/alt_fd_lock.c:54-75` | the lock loop likewise |
| `FdTable.FdList.Unlock` | `software/DE0_Nano_bsp/HAL/src/alt_fd_unlock.c:52-56` | the unlock likewise |
| `FdTable.FdList.IoctlCall` | `software/DE0_Nano_bsp/HAL/src/alt_ioctl.c:106-168` | ioctl likewise: the lock requests for devices, the driver for everything else |
| `FdTable.FdList.OpenFd` | `software/DE0_Nano_bsp/HAL/src/alt_io_redirect.c:58-72` | the redirection likewise |
| `FdTable.FdList.IoRedirect` | `software/DE0_Nano_bsp/HAL/src/alt_io_redirect.c:85-94` | output, input and error in that order |
| `Numerals.DigitsReadBack` | `software/DE0_Nano_bsp/HAL/src/alt_log_printf.c:281-296` | a numeral reads back as its number, in every base |
| `Numerals.DigitIsUsual` | `software/DE0_Nano_bsp/HAL/src/alt_log_printf.c:286-291` | the sixteen digits are the usual characters |
| `Numerals.NoLeadingZero` | `software/DE0_Nano_bsp/HAL/src/alt_log_printf.c:247-255` | its first digit is zero only for zero |
| `Numerals.FixedHead` | `software/DE0_Nano_bsp/HAL/src/alt_log_printf.c:286-295` | dividing by the place value and keeping the remainder gives the digits in order |
| `Numerals.DigitsAreFixed` | `software/DE0_Nano_bsp/HAL/src/alt_log_printf.c:247-255` | a number between two powers of the base has just so many digits |
| `LogPrintf.FieldReadsBack` | `software/DE0_Nano_bsp/HAL/src/alt_log_printf.c:238-296` | what is written reads back as the integer meant: every 32-bit value, the most negative included, base, width and padding |
| `LogPrintf.FieldWidth` | `software/DE0_Nano_bsp/HAL/src/alt_log_printf.c:257-280` | the length is the larger of the width and what the number needs, with nothing added when no width is given |
| `LogPrintf.FieldPads` | `software/DE0_Nano_bsp/HAL/src/alt_log_printf.c:257-280` | what fills the room: blanks before the number, or zeros between sign and digits |
| `LogPrintf.HexAgrees` | `software/DE0_Nano_bsp/HAL/src/alt_printf.c:82-111` | the two functions write the same hexadecimal |
| `LogPrintf.CountDigits` | `software/DE0_Nano_bsp/HAL/src/alt_log_printf.c:247-255` | the loop finds the number of digits and the largest place value, which never exceeds the number, so 32 bits suffice |
| `LogPrintf.NibbleMask` | `software/DE0_Nano_bsp/HAL/src/alt_printf.c:98-104` | masking with 0xF shifted left isolates one hexadecimal digit |
| `LogPrintf.FirstNibble` | `software/DE0_Nano_bsp/HAL/src/alt_printf.c:96-99` | the search ends at the most significant digit that is not zero |
| `LogPrintf.Console.RepChar` | `software/DE0_Nano_bsp/HAL/src/alt_log_printf.c:106-110` | that many characters, none for a negative count |
| `LogPrintf.Console.PrintDigits` | `software/DE0_Nano_bsp/HAL/src/alt_log_printf.c:281-296` | the digit loop |
| `LogPrintf.Console.PrintLead` | `software/DE0_Nano_bsp/HAL/src/alt_log_printf.c:257-280` | blanks, zeros and sign in the right order |
| `LogPrintf.Console.IntegerPrint` | `software/DE0_Nano_bsp/HAL/src/alt_log_printf.c:206-297` | the whole integer conversion |
| `LogPrintf.Console.HexPrint` | `software/DE0_Nano_bsp/HAL/src/alt_printf.c:82-111` | the whole hexadecimal conversion of the smaller function |
| `LogFormat.WidthIsRead` | `software/DE0_Nano_bsp/HAL/src/alt_log_printf.c:176-190` | the width is the number its digits spell |
| `LogFormat.PrecisionIsRead` | `software/DE0_Nano_bsp/HAL/src/alt_log_printf.c:172-195` | so is the precision |
| `LogFormat.PieceIsRead` | `software/DE0_Nano_bsp/HAL/src/alt_log_printf.c:130-340` | one piece of a format string writes what it asks for, whatever came before and comes after |
| `LogFormat.FormatMeansItsPieces` | `software/DE0_Nano_bsp/HAL/src/alt_log_printf.c:130-340` | a format string spelled from characters, percent signs and conversions writes what they ask for, in order, each conversion taking the next argument |
| `LogFormat.IntegersAreNumerals` | `software/DE0_Nano_bsp/HAL/src/alt_log_printf.c:204-317` | for every 32-bit argument: d and i write its signed decimal numeral, u the decimal, o the octal, x and X the hexadecimal in small and capital letters |
| `LogFormat.IntegersArePadded` | `software/DE0_Nano_bsp/HAL/src/alt_log_printf.c:257-280` | with a width, that numeral behind blanks, or with zeros after its sign |
| `LogFormat.CharIsPadded` | `software/DE0_Nano_bsp/HAL/src/alt_log_printf.c:319-322` | a character behind blanks |
| `LogFormat.TextIsPadded` | `software/DE0_Nano_bsp/HAL/src/alt_log_printf.c:324-334` | a string behind blanks, whatever the precision |
| `LogFormat.ConversionTakesOne` | `software/DE0_Nano_bsp/HAL/src/alt_log_printf.c:202-335` | a conversion takes one argument and leaves the others to what follows |
| `LogFormat.OthersTakeNone` | `software/DE0_Nano_bsp/HAL/src/alt_log_printf.c:130-160` | other characters are copied, a double percent sign writes one, an unknown letter nothing |
| `LogFormat.Convert` | `software/DE0_Nano_bsp/HAL/src/alt_log_printf.c:202-335` | integer, character and string conversions; any other letter writes nothing |
| `LogFormat.Print` | `software/DE0_Nano_bsp/HAL/src/alt_log_printf.c:114-341` | the loop over the format string writes exactly that output |

## Left out

- The JTAG UART driver as one object: `UartDriver.dfy` keeps the transmit and the receive half of the driver's state in two
  objects, and the transition system in `JtagUart.dfy` is on values, because its steps interleave; the update in place is in
  `UartDriver.dfy`.
- A reader and a writer inside the driver at the same time are interleaved in `JtagUart.dfy`; in `UartDriver.dfy` each call
  is interleaved with interrupts, ticks and the host.
- UartDriver.Transmitter.Write: a count below zero behaves like zero and is not modelled apart.
- The small and the uC/OS-II builds of the UART driver, direct drivers, and the option that ignores a full FIFO.
- The semaphores and event flags themselves.
- Real time: delays, baud rates, the length of a tick.
- Electrical matters on the I2C bus: the master drives SDA in both directions, so for a moment after the eighth bit, with SCL
  low, master and slave may pull against each other. The model notes contention only while SCL is high.
- I2cTransfers.MultipleWrite: odd device addresses, which would make the slave drive SDA against the write that follows, are
  excluded, here and in I2cTransfers.Write, I2cTransfers.Read and I2cTransfers.MultipleRead.
- I2cMonitor.MakeCalls: what later calls do after a call has left the bus held; the master then drives SDA against the slave,
  and the level is not determined.
- EpcsCommands.SectorErase: the log of commands leaves out the status reads of a busy wait, here and in EpcsCommands.WriteBuffer.
- EpcsCommands.ReadBuffer: with four-byte addressing, a write still in progress is excluded, since the program changes the mode
  before it waits; every operation here leaves the chip at rest.
- UartDriver.Close: with a timeout that is never reached and a writer still inside the driver, the end of the wait depends on
  that writer.
- EpcsFlash.EpcsDevice.WriteBlock: ranges whose end, rounded up by a page, does not fit a signed 32-bit number are excluded, here
  and in EpcsFlash.EpcsDevice.ProgramPages and TerasicFlash.FlashWrite.
- EpcsFlash.EpcsDevice.Write: ranges whose end passes 2^31 are excluded.
- EpcsFlash.EpcsDevice.Compare: ranges that leave the device are excluded; the write never compares one.
- `I2C_Verify` and `i2c_data_verify`, which call the transfers modelled here with fixed arguments.
- `alt_avalon_spi_command` with its toggle flag, and a call that neither writes nor reads, which never returns.
- `epcs_write_status_register`, `alt_epcs_flash_get_info`, device registration and the open and close of the flash device by
  name; failure of `malloc` in the flash self-check.
- AlarmList.Clock.Start: the list is a sequence of objects, not links inside them; starting an alarm that is already listed,
  which would link it in twice, is excluded.
- WallClock.Clock.SetTimeOfDay: a null time-zone pointer, which the program follows unchecked, is excluded; so is one of the
  time itself.
- Priorities and nesting of interrupts, and the exception entry code.
- WallClock.Clock.GetTimeOfDay: readings whose seconds would pass the largest 32-bit value are excluded, since the C
  program has no defined result there.
- The order of names in the device list: how a name is found is an argument of `FdTable.FdList.OpenCall`.
- `fcntl`, `dup` and the read, write and seek calls, which only pass through the descriptor table.
- FdTable.FdList.CloseCall: a descriptor that is not in use is excluded, here and in FdTable.FdList.IoctlCall; the program follows
  a null device there.
- LogFormat.Print: a missing argument, or one of another kind, has no defined result; widths are unbounded integers.
- The format string loop of `alt_printf`, of which only the hexadecimal conversion is modelled.
- The boot log, its flags, and the register polling of the log port.
- The demonstration menu, the accelerometer and the analog-digital converter; the copies of the sources under
  `de0_nano_system`.
