# Verified model of the LMS control firmware

The firmware runs on a soft processor inside a software-radio board. It takes 64-byte command packets, drives
chips over SPI, and is built on the board-support layer: a UART driver, an alarm service, a descriptor pool,
time of day, two small printers and two allocators. This project models the parts of it whose correctness rests
on invariants over whole runs, and proves what they are for.

Check it with `dafny verify dfyconfig.toml`.

| files | component |
|---|---|
| `Words` | 32-bit unsigned arithmetic |
| `AlarmArithmetic`, `AlarmSpec`, `AlarmService` | the alarm list, `alt_alarm_start`, `alt_alarm_stop`, `alt_tick` |
| `Ring`, `UartDevice`, `UartDriver` | the interrupt-driven UART driver |
| `SpiBus`, `SpiMaster` | `alt_avalon_spi_command` |
| `FlashChip`, `FlashDriver` | the flash routines |
| `FdSpec`, `FdPool` | file descriptors and exclusive locks |
| `RegisterChip`, `Commands`, `Upload`, `McuUpload`, `CommandLoop`, `PacketLaws` | register packets, MCU firmware upload, the command loop |
| `TimeOfDay` | `settimeofday`, `gettimeofday` |
| `IntegerPrinter`, `FormatSpec`, `FormatLaws`, `Printers` | `alt_log_private_printf`, `alt_printf` |
| `Allocator` | `ALT_SBRK`, `mcount_allocate` |

Where the source changes state, the model is a class or a method over arrays with the source's own fields, and is
proved to refine a specification over unbounded time, abstract queues, sequences or tables; the properties are
then proved of the specification.

Interrupts are modelled as arbitrary interference: `UartDriver.Uart.Interfere` stands between any two foreground
steps and may run any number of interrupt services, and the hardware may act in the three gaps of each service. The
SPI controller shifts whenever it likes, but does not rest for ever. Time spent by the flash and the answers of the
MCU status register are arbitrary sequences.

## What the code does that its documentation does not say

- An alarm started with 0xFFFFFFFF ticks fires on the very next tick, unless the counter holds 0xFFFFFFFF
  (`AlarmArithmetic.StartExactness`), and its next period is counted from one tick earlier.
- The UART service re-checks CTS before it throttles, but an edge between the read of the status register and the
  write that clears it can still be lost (`UartDriver.LostWakeUp`); `Uart.Irq` says exactly when. The source's
  comment claims that the re-check avoids the deadlock.
- A service entered for a CTS edge writes TXDATA even if the transmitter is busy (`UartDriver.BusyTransmitterIsOverwritten`).
- A character received with a parity or framing error is not discarded, as the comment says, but delivered by the
  next service.
- The receive service stores into a full ring, which then looks empty. Disabling the receive interrupt does not
  prevent it: a transmit interrupt looks at RRDY too (`UartDriver.TransmitInterruptOverflowsReceive`). The receive
  stream is kept if and only if no service finds a full ring and a good character.
- `alt_avalon_spi.h` advises the merge flag on all calls but the first of a sequence; the code keeps the slave selected
  after a call with the flag, so it belongs on all but the last, and this is how the flash routines use it.
- An SPI call with both lengths zero never returns.
- A register write packet for register 4 of the LMS7002 goes into the middle of an MCU upload (`CommandLoop.StrayByte`).
- The wait with limit 500 in the MCU upload counts in eight bits and has no limit.
- `alt_fd_lock` does not look at the descriptor at `alt_max_fd` (`FdSpec.GrantedLockIsSole`).
- A failed open may leave `alt_max_fd` raised and the free slot it tried with its flags cleared.
- A sector erase sent to a busy flash is ignored and still reported as successful once the chip is idle.
- `settimeofday` multiplies in 32 bits where `gettimeofday` multiplies in 64 (`TimeOfDay.SetThenGet`).
- With a tick rate that does not divide 1000000 the time of day can step back (`TimeOfDay.NeverRunsBackExactly`).
- `sbrk` does not check a negative increment (`Allocator.ShrinkInv`).
- `mcount_allocate` ignores a failure of `sbrk` (`Allocator.FullHeapGivesMinusOne`).

## Model

| member | source | states |
|---|---|---|
| AlarmArithmetic.TickFiresExactly | software/lms_ctr_bsp/HAL/src/alt_tick.c:109-115 | a tick calls an alarm back if and only if its absolute deadline is the new time; otherwise word and flag still represent the deadline, across any number of counter wraps |
| AlarmArithmetic.RearmRepresents | software/lms_ctr_bsp/HAL/src/alt_tick.c:127-137 | re-arming after a callback represents a deadline exactly one period after the last one, or after one tick before it if the alarm was started with the inexact interval |
| AlarmArithmetic.StartRepresents | software/lms_ctr_bsp/HAL/src/alt_alarm_start.c:80-96 | for every interval and counter the fields of a started alarm represent its deadline, which is nticks + 1 ticks ahead save for the inexact interval |
| AlarmArithmetic.StartExactness | software/lms_ctr_bsp/HAL/src/alt_alarm_start.c:80-96 | a started alarm fires first after nticks + 1 ticks if and only if nticks is not 0xFFFFFFFF or the counter holds 0xFFFFFFFF; in every other case it fires on the next tick |
| AlarmArithmetic.LongestIntervalAtPowerUp | software/lms_ctr_bsp/HAL/src/alt_alarm_start.c:82-96 | the concrete failing start: 2^32 ticks asked for at tick 0 fires at tick 1 |
| AlarmSpec.RunFollowsHistory | software/lms_ctr_bsp/HAL/src/alt_tick.c:66-148 | over any run of starts, stops and ticks in which it is never registered twice, an alarm is called back at exactly the ticks of the schedules of its registered stretches, each cut off where the stretch ended, and stays registered for exactly the rest; starts made by callbacks are included |
| AlarmSpec.SilentRun | software/lms_ctr_bsp/HAL/src/alt_tick.c:100-141 | an alarm that is not registered and that nobody starts is never called back |
| AlarmSpec.StartedAlarmIsExact | software/lms_ctr_bsp/HAL/src/alt_alarm_start.c:64-112 | started at tick T with interval n, an alarm fires at T + n + 1 (save for the inexact interval), then exactly p ticks after each firing that returned p > 0, and at no tick between, whatever other alarms do; with the inexact interval each distance is stated, and is p from the first firing on which the rollover is right |
| AlarmSpec.ScheduleSpaced | software/lms_ctr_bsp/HAL/src/alt_tick.c:109-137 | for any deadline and any callback: the first firing is the deadline, and a firing at t answered with p > 0 is followed by one at t + p and none between, for as long as the registration lasts; an early deadline makes one distance p - 1, or none if p is 1 |
| AlarmSpec.HistorySpaced | software/lms_ctr_bsp/HAL/src/alt_tick.c:66-148 | hence the registered stretches of any run have their firings exactly the answered periods apart |
| AlarmSpec.NewcomerRegistered | software/lms_ctr_bsp/HAL/src/alt_alarm_start.c:64-112 | an alarm that a callback starts with any interval but one is due that many ticks and one after the callback |
| AlarmSpec.StoppedAlarmIsSilent | software/lms_ctr_bsp/HAL/src/alt_tick.c:66-73 | the same alarm, once stopped, has fired at exactly the ticks of its schedule up to the stop, and does not fire again |
| AlarmService.RegisteredAtMostOnce | software/lms_ctr_bsp/HAL/inc/sys/alt_llist.h:90-117 | a valid service has no alarm registered twice, and every deadline ahead: what the run theorem asks for |
| AlarmService.Insert | software/lms_ctr_bsp/HAL/inc/sys/alt_llist.h:90-98 | insertion into a circular doubly linked list prepends to its abstract sequence |
| AlarmService.Remove | software/lms_ctr_bsp/HAL/inc/sys/alt_llist.h:105-117 | removal deletes exactly one element; a second removal changes nothing |
| AlarmService.TickService.Start | software/lms_ctr_bsp/HAL/src/alt_alarm_start.c:64-112 | for every interval, registers the alarm at the front with its absolute deadline, or reports which precondition failed and changes nothing |
| AlarmService.TickService.Stop | software/lms_ctr_bsp/HAL/src/alt_tick.c:66-73 | the alarm is unlinked and gone from the service, whether or not it was registered; every other timer is kept |
| AlarmService.TickService.CallBack | software/lms_ctr_bsp/HAL/src/alt_tick.c:117 | a callback is recorded with its tick, and the alarms it starts go to the front of the list, behind the walk, with deadlines counted from the new tick |
| AlarmService.TickService.Tick | software/lms_ctr_bsp/HAL/src/alt_tick.c:87-148 | one tick terminates, visits every alarm registered at entry exactly once in list order, although the visited node may be unlinked and callbacks may start other alarms; the callbacks made, in order, are exactly those due, and list and deadlines afterwards are those of the tick in unbounded time |
| AlarmService.Execute | software/lms_ctr_bsp/HAL/src/alt_tick.c:66-148 | a whole run of starts, stops and ticks on the linked list: the service does what the specification says, no alarm is ever registered twice, and every alarm has been called back at exactly the ticks of the schedules of its registered stretches, which lie exactly the answered periods apart |
| AlarmService.StoppedSuccessorTrapsTheWalk | software/lms_ctr_bsp/HAL/src/alt_tick.c:102-141 | a callback that stops the next alarm leaves the walk on a node that points to itself, for ever |
| Ring.HoldsContents | software/lms_ctr_bsp/drivers/inc/altera_avalon_uart.h:110-117 | the masked indices and the buffer determine the queue: walking from start to end yields it |
| Ring.ContentsHold | software/lms_ctr_bsp/drivers/inc/altera_avalon_uart.h:110-117 | conversely every pair of indices holds the queue that is read off, as long as the indices are apart |
| Ring.AfterIsMasked | software/lms_ctr_bsp/drivers/src/altera_avalon_uart_write.c:156 | stepping on in the ring is adding one and masking |
| Ring.EnqueueFull | software/lms_ctr_bsp/drivers/src/altera_avalon_uart_init.c:178-184 | storing into a ring of 63 bytes makes it look empty |
| UartDevice.AdvanceAwake | software/lms_ctr_bsp/drivers/src/altera_avalon_uart_init.c:248-268 | the hardware alone never puts an awake transmitter to sleep |
| UartDevice.AwakeInterrupts | software/lms_ctr_bsp/drivers/src/altera_avalon_uart_init.c:246-282 | an awake transmitter raises an interrupt whenever the device may send |
| UartDriver.Uart.constructor | software/lms_ctr_bsp/drivers/src/altera_avalon_uart_init.c:66-98 | initialisation establishes the invariant, with RTS set, receive and CTS interrupts enabled and both rings empty |
| UartDriver.Uart.AlwaysAwake | software/lms_ctr_bsp/drivers/src/altera_avalon_uart_init.c:246-282 | the invariant kept at every point where interrupts are on: a byte has been stored into a full receive ring exactly if some service found one full, and the transmitter is awake unless a service since transmission was last enabled lost a CTS edge; so without flow control it always is |
| UartDriver.Uart.IndicesCount | software/lms_ctr_bsp/drivers/inc/altera_avalon_uart.h:110-117 | at every point where interrupts are on, the four masked indices are the numbers of bytes written, accepted, delivered and stored, modulo 64 |
| UartDriver.Uart.RxIrq | software/lms_ctr_bsp/drivers/src/altera_avalon_uart_init.c:152-198 | a good character is appended to the stored stream, which equals delivered plus ring contents afterwards if and only if the ring did not already hold 63 bytes; a bad one is left in the device; RRDY goes off exactly when the ring becomes full |
| UartDriver.Uart.TxIrq | software/lms_ctr_bsp/drivers/src/altera_avalon_uart_init.c:206-283 | moves the oldest byte to TXDATA or keeps it, never reorders or duplicates, and sets the interrupt enables as flow control demands |
| UartDriver.Uart.Irq | software/lms_ctr_bsp/drivers/src/altera_avalon_uart_init.c:107-144 | one service with the hardware acting in its gaps: it keeps the transmit stream, sends the oldest byte exactly when it may, keeps the wake-up if and only if no CTS edge was lost, overwrites TXDATA and overflows the receive ring exactly when stated; under flow control nothing is sent while CTS is low, and a ready device with CTS set is sent the oldest byte; the service is recorded |
| UartDriver.Uart.Interfere | software/lms_ctr_bsp/drivers/src/altera_avalon_uart_init.c:107-144 | any amount of hardware activity and any number of interrupt services between two foreground steps keep the invariant and the accepted stream, and only append to the receive queue |
| UartDriver.Uart.EnableTransmit | software/lms_ctr_bsp/drivers/src/altera_avalon_uart_write.c:216-225 | after the final enabling no wake-up is outstanding |
| UartDriver.Uart.WaitForSpace | software/lms_ctr_bsp/drivers/src/altera_avalon_uart_write.c:171-197 | keeps the invariant while the writer waits, transmission enabled at the start; when it goes on, the ring has room, and when it is cut short the ring is full |
| UartDriver.Uart.Write | software/lms_ctr_bsp/drivers/src/altera_avalon_uart_write.c:123-230 | in every interleaving with interrupt services the accepted stream grows by exactly the prefix reported; a blocking call takes all, and bytes are left only if those queued before and those accepted come to 63 or more; on return transmission has been enabled anew, so the transmitter is awake unless an edge was lost since |
| UartDriver.Uart.Close | software/lms_ctr_bsp/drivers/src/altera_avalon_uart_init.c:298-310 | success only when every accepted byte has been written to TXDATA, in order; refusal only in non-blocking mode with bytes still queued |
| UartDriver.LineDrains | software/lms_ctr_bsp/drivers/src/altera_avalon_uart_init.c:206-283 | as long as no service loses an edge, interrupts alone drain the ring whatever CTS does, on a line that is ready with CTS set again and again: every accepted byte is written to TXDATA, in order |
| UartDriver.Uart.Take | software/lms_ctr_bsp/drivers/src/altera_avalon_uart_read.c:164-170 | one byte leaves the ring and is the next of the delivered stream, with interrupts in between; a service that found the ring full is the only exception |
| UartDriver.Uart.ReadBytes | software/lms_ctr_bsp/drivers/src/altera_avalon_uart_read.c:123-238 | unless a service found the ring full, the bytes returned continue the delivered stream and are as many as asked for, or at least all that were queued at the call; a read of len > 0 gives between 1 and len bytes, and would block only on a ring that was empty; a non-blocking read is not kept waiting |
| UartDriver.ServiceEdges | software/lms_ctr_bsp/drivers/src/altera_avalon_uart_init.c:246-282 | after a service that leaves bytes queued the transmitter is awake if and only if no CTS edge fell between reading and clearing the status |
| UartDriver.LostWakeUp | software/lms_ctr_bsp/drivers/src/altera_avalon_uart_init.c:122-128 | from any state with a byte queued, the transmitter awake and CTS low: one edge between reading and clearing the status leaves CTS high, the device ready, the byte queued, and no interrupt pending |
| UartDriver.BusyTransmitterIsOverwritten | software/lms_ctr_bsp/drivers/src/altera_avalon_uart_init.c:137-141 | from any state with a busy transmitter, a latched CTS edge and a byte queued: the service overwrites the byte in TXDATA |
| UartDriver.TransmitInterruptOverflowsReceive | software/lms_ctr_bsp/drivers/src/altera_avalon_uart_init.c:131-134 | from any state with a full receive ring, receive interrupts off and a character waiting: a transmit interrupt stores it all the same, and the ring looks empty |
| UartDriver.ErroredCharacterIsDelivered | software/lms_ctr_bsp/drivers/src/altera_avalon_uart_init.c:157-163 | contrary to the comment, a character received in error is not discarded but delivered by the next service |
| SpiMaster.Controller.AwaitWork | software/lms_ctr_bsp/drivers/src/altera_avalon_spi.c:82-87 | the polling loop ends on a device that does not rest for ever, with at most one byte in transit and nothing overrun |
| SpiMaster.Controller.SendNext | software/lms_ctr_bsp/drivers/src/altera_avalon_spi.c:89-102 | the branch credits = -1024 is unreachable; the next byte is data, then zeros |
| SpiMaster.Controller.Turn | software/lms_ctr_bsp/drivers/src/altera_avalon_spi.c:79-118 | one pass keeps credits plus outstanding bytes at 1 and the cursors in step, makes progress, and ends the loop exactly when every answer is in |
| SpiMaster.Controller.Exchanges | software/lms_ctr_bsp/drivers/src/altera_avalon_spi.c:57-118 | the main loop sends the data and then read_length zeros, and stores exactly the last read_length answers; it terminates for any timing of a fair device |
| SpiMaster.Controller.Command | software/lms_ctr_bsp/drivers/src/altera_avalon_spi.c:41-134 | the whole call is the transfer of the reference definition, for overlapping or identical buffers too: the bytes sent are those the source held at entry, nothing outside the answer range changes, the bus is idle on exit, the slave is released unless merging |
| SpiMaster.Controller.EmptyCall | software/lms_ctr_bsp/drivers/src/altera_avalon_spi.c:78-118 | with both lengths zero the main loop sets credits to -1024 and is never left, however often it polls |
| SpiBus.MergedTransfers | software/lms_ctr_bsp/drivers/src/altera_avalon_spi.c:118-134 | a call with the merge flag followed by another one exchanges, and releases, what a single call with both byte runs would |
| SpiBus.HeldTransfer | software/lms_ctr_bsp/drivers/src/altera_avalon_spi.c:57-134 | for slaves that answer anything to all that has happened: with the select line forced a call puts the data and then read_length zeros on the bus, reads the answers to the zeros, and releases the slave once, at the end, unless the merge flag is set |
| SpiBus.LooseTransfer | software/lms_ctr_bsp/drivers/src/altera_avalon_spi.c:57-134 | without it the same bytes are sent, each in a frame of its own, whatever the merge flag says |
| FlashChip.ReverseTwice | software/lms_ctr_app/spi_flash_lib.c:16-23 | reversing the bit order is an involution |
| FlashChip.ReversesBits | software/lms_ctr_app/spi_flash_lib.c:16-23 | bit i of a byte becomes bit 7 - i, for every byte and every i |
| FlashChip.HeaderBits | software/lms_ctr_app/spi_flash_lib.c:53-55 | bit i of the second, third and fourth byte of a command is bit 23 - i, 15 - i and 7 - i of the byte address |
| FlashChip.HeaderOfPageOne | software/lms_ctr_app/spi_flash_lib.c:53-57 | the header that reads page 1 is C0 00 80 00 |
| FlashChip.CommandsReversed | software/lms_ctr_app/spi_flash_lib.c:57-202 | the command bytes are sent as they are: each is the bit-reversed form of the number the chip knows |
| FlashChip.HeaderAddresses | software/lms_ctr_app/spi_flash_lib.c:53-55 | the three reversed address bytes address, at the chip, exactly the page and offset of the byte address |
| FlashChip.ReadsStatus | software/lms_ctr_app/spi_flash_lib.c:153-169 | the first answer of a status read is the status at its start, and every status byte uses up one busy period |
| FlashChip.SendsPageRead | software/lms_ctr_app/spi_flash_lib.c:88 | one frame with a page address reads the whole page and leaves the chip as it was |
| FlashDriver.WaitForStatus | software/lms_ctr_app/spi_flash_lib.c:134-180 | success leaves the chip idle and write enabled, memory untouched; it succeeds if and only if the chip is busy for at most 2 * 9999 more status bytes |
| FlashDriver.ReadPage | software/lms_ctr_app/spi_flash_lib.c:57-88 | one page read fills exactly 256 bytes of the buffer, with the page or, from a busy chip, with 0xFF, and leaves the chip as it was |
| FlashDriver.WritePage | software/lms_ctr_app/spi_flash_lib.c:90-119 | command, address and data form one chip-select frame that programs exactly the addressed page with the 256 bytes |
| FlashDriver.FlashSpiTransfer | software/lms_ctr_app/spi_flash_lib.c:31-131 | memory or buffer changes by exactly `done` whole pages, also on an early error return; the status is 0 if and only if all were done; page addresses wrap as the 32-bit byte address does; a quick chip gives no error |
| FlashDriver.MovedIsLinear | software/lms_ctr_app/spi_flash_lib.c:31-131 | byte j of a transfer concerns the linear address first * 256 + j of the memory: a read from an idle chip puts that byte into the buffer, a write turns it into its conjunction with the data |
| FlashDriver.ErasedIsLinear | software/lms_ctr_app/spi_flash_lib.c:184-234 | erasing a sector sets exactly its 65536 linear addresses to 0xFF |
| FlashDriver.FlashSpiEraseSector | software/lms_ctr_app/spi_flash_lib.c:184-234 | an idle chip has the sector erased, a busy one ignores the command; the status tells only whether the chip became idle in time |
| FlashDriver.WrittenPages | software/lms_ctr_app/spi_flash_lib.c:90-128 | pages written to blank memory hold the data, every other page is as before |
| FlashDriver.RoundTrip | software/lms_ctr_app/spi_flash_lib.c:31-131 | reading k pages that were written to blank memory returns the data |
| FlashDriver.CoveredBlank | software/lms_ctr_app/spi_flash_lib.c:202-214 | erasing a run of sectors blanks exactly their pages |
| FlashDriver.ProgramAndReadBack | software/lms_ctr_app/spi_flash_lib.c:31-234 | the routines composed, through all the layers, for any page range of a call and any state of the chip: wait, erase every sector the range touches, write, wait, read back; whenever no step reports an error the buffer read equals the buffer written and memory outside these sectors is as before, and on a chip that is quick enough no step does |
| FdSpec.InitialInv | software/lms_ctr_bsp/HAL/src/alt_dev.c:118-149 | the start-up table satisfies the invariant |
| FdSpec.StepInv | software/lms_ctr_bsp/HAL/src/alt_open.c:105-171 | every call keeps it: standard slots taken, slots above 2 in use only up to alt_max_fd, lock flags only on open devices |
| FdSpec.RunInv | software/lms_ctr_bsp/HAL/src/alt_open.c:105-171 | hence every run of open, close, ioctl and fcntl does |
| FdSpec.OpenExclusive | software/lms_ctr_bsp/HAL/src/alt_open.c:64-92 | an open of an exclusively held device fails with EACCES, or EMFILE if the table is full |
| FdSpec.StepExclusive | software/lms_ctr_bsp/HAL/src/alt_ioctl.c:127-139 | no call but the holder's own close or unlock adds a descriptor to its device, moves the holder, or clears its lock, fcntl and file systems included |
| FdSpec.RunExclusive | software/lms_ctr_bsp/HAL/src/alt_open.c:64-171 | over any run the set of other descriptors on an exclusively held device never grows |
| FdSpec.FailedOpenRestores | software/lms_ctr_bsp/HAL/src/alt_open.c:159-166 | a failed open leaves every open descriptor as it was and opens none |
| FdSpec.OpenTakesLowest | software/lms_ctr_bsp/HAL/src/alt_get_fd.c:77-89 | a successful open takes the lowest free slot, above 2, and changes no other slot |
| FdSpec.GrantedLockIsSole | software/lms_ctr_bsp/HAL/src/alt_fd_lock.c:54-75 | a granted lock is sole ownership above the standard descriptors if and only if the slot at alt_max_fd is the holder's own, a standard one, or on another device |
| FdSpec.LockMissesTheTopDescriptor | software/lms_ctr_bsp/HAL/src/alt_fd_lock.c:61-68 | a concrete lock granted while another descriptor is open on the device |
| FdSpec.OpenGranted | software/lms_ctr_bsp/HAL/src/alt_open.c:105-171 | an open succeeds if and only if the name is known, a slot is free, no other descriptor holds the device and the driver agrees |
| FdSpec.OpenRefused | software/lms_ctr_bsp/HAL/src/alt_open.c:105-171 | otherwise it reports ENODEV, EMFILE, EACCES or the driver's error, whichever applies first |
| FdSpec.OpenedFlags | software/lms_ctr_bsp/HAL/src/alt_open.c:121-135 | the new slot is on the device asked for, shows the caller's flags, is marked a device if it is one, and is not locked |
| FdSpec.CloseFrees | software/lms_ctr_bsp/HAL/src/alt_close.c:64-101 | after close(fd), fd > 2, the slot is free with its flags cleared, whatever the driver returns; every other slot is as before, and the standard ones are never freed |
| FdSpec.FreedIsReused | software/lms_ctr_bsp/HAL/src/alt_close.c:88 | the next successful open takes a descriptor no higher than the one closed |
| FdSpec.OpenThenClose | software/lms_ctr_bsp/HAL/src/alt_close.c:64-101 | an open and the close of the descriptor it gave restore the set of open descriptors |
| FdSpec.LockGranted | software/lms_ctr_bsp/HAL/src/alt_ioctl.c:127-139 | TIOCEXCL succeeds if and only if no other descriptor below alt_max_fd is on the device; then this one holds it |
| FdSpec.UnlockEnds | software/lms_ctr_bsp/HAL/src/alt_fd_unlock.c:52-56 | after TIOCNXCL the descriptor does not hold the device, is still open on it, and no other slot has changed |
| FdSpec.UnlockAdmits | software/lms_ctr_bsp/HAL/src/alt_open.c:64-92 | an open that follows succeeds, if a slot is free, the driver agrees and no further descriptor holds the device |
| FdSpec.CloseAdmits | software/lms_ctr_bsp/HAL/src/alt_open.c:64-92 | likewise after the holder's close, which frees a slot |
| FdSpec.SetThenGetFlags | software/lms_ctr_bsp/HAL/src/alt_fcntl.c:84-92 | F_SETFL sets O_APPEND and O_NONBLOCK as asked, keeps every other bit and every other slot; F_GETFL returns the result without the two internal bits |
| FdSpec.DriverRequest | software/lms_ctr_bsp/HAL/src/alt_ioctl.c:106-168 | every other request is the driver's: its result is returned and no slot changes |
| FdSpec.BadDescriptor | software/lms_ctr_bsp/HAL/src/alt_close.c:64-101 | a negative descriptor is refused with EBADFD and changes nothing |
| FdPool.Pool.constructor | software/lms_ctr_bsp/HAL/src/alt_dev.c:118-149 | the arrays at start-up are the initial table |
| FdPool.Pool.GetFd | software/lms_ctr_bsp/HAL/src/alt_get_fd.c:54-101 | claims the lowest free slot and raises the mark if needed, or reports EMFILE and changes nothing |
| FdPool.Pool.FileLocked | software/lms_ctr_bsp/HAL/src/alt_open.c:64-92 | true if and only if another descriptor up to and including alt_max_fd holds the device |
| FdPool.Pool.FdLock | software/lms_ctr_bsp/HAL/src/alt_fd_lock.c:54-75 | granted if and only if no other descriptor strictly below alt_max_fd is on the device; only the lock flag changes |
| FdPool.Pool.FdUnlock | software/lms_ctr_bsp/HAL/src/alt_fd_unlock.c:52-56 | only the lock flag of this slot changes |
| FdPool.Pool.ReleaseFd | software/lms_ctr_bsp/HAL/src/alt_release_fd.c:44-51 | frees a slot above 2, ignores the others |
| FdPool.Pool.OpenFile | software/lms_ctr_bsp/HAL/src/alt_open.c:105-171 | refines the open step of the table, rollback included |
| FdPool.Pool.CloseFile | software/lms_ctr_bsp/HAL/src/alt_close.c:64-101 | refines the close step, the slot freed even when the driver reports an error |
| FdPool.Pool.IoctlFile | software/lms_ctr_bsp/HAL/src/alt_ioctl.c:106-168 | refines the ioctl step: lock requests never reach the driver of a device |
| FdPool.Pool.SetFileFlags | software/lms_ctr_bsp/HAL/src/alt_fcntl.c:86-92 | refines the flag update, which keeps the lock and device bits |
| FdPool.Pool.GetFileFlags | software/lms_ctr_bsp/HAL/src/alt_fcntl.c:84-85 | returns the flags without the two internal bits |
| FdPool.Pool.RejectControl | software/lms_ctr_bsp/HAL/src/alt_fcntl.c:93-101 | other fcntl commands fail with EINVAL, or EBADFD, and change nothing |
| RegisterChip.Reads | software/lms_ctr_app/main.c:403 | a two-byte read command returns the value of the addressed register |
| RegisterChip.Writes | software/lms_ctr_app/main.c:373 | a four-byte command with the write bit stores one value |
| Commands.WrittenLookup | software/lms_ctr_app/main.c:361-374 | after a write packet every register holds the last value a block gave it, or what it held before |
| Commands.ReadKeeps | software/lms_ctr_app/main.c:387-404 | a read packet changes no register and reads each one as it is |
| Commands.PacketRoundTrip | software/lms_ctr_app/main.c:356-438 | reading the addresses of the blocks just written returns, block by block, the last value written to each, whatever the registers held before |
| Commands.ReplyBlock | software/lms_ctr_app/main.c:387-404 | each reply block keeps two bytes and receives the value; blocks do not disturb each other or the header |
| Commands.Firmware.constructor | software/lms_ctr_app/main.c:52-86 | the firmware at power-up, last_portion 0 |
| Commands.Firmware.Begin | software/lms_ctr_app/main.c:303-311 | takes the packet in, clears the reply and starts its header |
| Commands.Firmware.CheckManyBlocks | software/lms_ctr_app/main.c:77-86 | refuses exactly the block counts that do not fit the 56-byte field, and says so in the status |
| Commands.Firmware.SendRead | software/lms_ctr_app/main.c:688 | a read whose answer lands on its own command bytes returns what a read into a separate buffer would |
| Commands.Firmware.WriteBlock | software/lms_ctr_app/main.c:364-373 | setting the write bit and sending four bytes stores the block's value at its 15-bit address, and leaves later blocks alone |
| Commands.Firmware.ReadBlock | software/lms_ctr_app/main.c:391-403 | clearing the write bit and sending two bytes stores the register's value in the reply block |
| Commands.Firmware.RegisterWrite | software/lms_ctr_app/main.c:356-379 | CMD_LMS7002_WR: all blocks written in order, or none and the block error |
| Commands.Firmware.RegisterRead | software/lms_ctr_app/main.c:426-438 | CMD_BRDSPI16_RD: all blocks answered in order, or none and the block error; every index within the field |
| Commands.Firmware.WriteThenRead | software/lms_ctr_app/main.c:303-438 | from packet bytes to packet bytes, over the SPI driver: each block of the read reply is two zero bytes and the last value written to the address, for up to 14 blocks of either device |
| Upload.RunIsConsecutive | software/lms_ctr_app/main.c:614-624 | after any sequence of packets from power-up the portions sent since the latest non-boot portion 0 are 0, 1, ..., last_portion, each a packet of the run |
| Upload.StreamAt | software/lms_ctr_app/main.c:696-727 | portion i occupies bytes 32 i to 32 i + 31 of the stream |
| Upload.UploadedStream | software/lms_ctr_app/main.c:612-787 | the stream is the 32-byte payloads of portions 0 to last_portion in order, 32 * (last_portion + 1) bytes |
| Commands.LastDecides | software/lms_ctr_app/main.c:361-374 | block i of a write packet decides the value of its register if no later block names it |
| Commands.OthersKept | software/lms_ctr_app/main.c:361-374 | a register that no block names keeps its value |
| RegisterChip.SameRegister | software/lms_ctr_app/main.c:366 | two address byte pairs select one register exactly if they differ at most in the write bit |
| Upload.InOrderAccepted | software/lms_ctr_app/main.c:614-624 | a run of portions 0, 1, ..., n, the first no boot request, is accepted whole |
| Upload.PortionOneAtPowerUp | software/lms_ctr_app/main.c:617-624 | at power-up portion 1 is accepted without a portion 0 |
| McuUpload.FifoPacket | software/lms_ctr_app/main.c:626-727 | of everything a packet writes to the MCU the FIFO register receives exactly the payload, or nothing for a boot request |
| McuUpload.PollStatus | software/lms_ctr_app/main.c:678-694 | the number of polls is that of the coming answers that lack the bit, at most `limit`; exactly the answers read are used up and nothing is written |
| McuUpload.PollUntilReady | software/lms_ctr_app/main.c:732-750 | the eight-bit counter never reaches 500, so the wait ends only with the first ready answer, and does end on a device that gives one |
| McuUpload.StartProgramming | software/lms_ctr_app/main.c:626-674 | portion 0 writes the reset and then the mode asked for, nothing for an unknown mode; only a boot request ends the command |
| McuUpload.WritePayload | software/lms_ctr_app/main.c:696-730 | exactly 32 writes to the FIFO register, the payload bytes in order |
| McuUpload.SendPortion | software/lms_ctr_app/main.c:676-778 | an error is counted if and only if the portion is 255 and none of the 30 answers after the two waits has the PROGRAMMED bit |
| McuUpload.FirmwareWrite | software/lms_ctr_app/main.c:612-787 | one packet: every register write, last_portion and the whole reply; rejected packets write nothing and change nothing, boot packets leave last_portion alone |
| CommandLoop.HandlePacket | software/lms_ctr_app/main.c:303-853 | one pass of the command loop: for every command the registers on this bus, last_portion and the 64 bytes of the reply are what the packet says, save for the values that ANALOG_VAL_RD measures; unknown commands are refused |
| CommandLoop.GpioRoundTrip | software/lms_ctr_app/main.c:790-816 | GPIO directions written are read back, the two swapped bytes in the order they were sent |
| CommandLoop.WriteAllFifo | software/lms_ctr_app/main.c:356-379 | an LMS7002 write packet puts into the FIFO register exactly the values of its blocks for register 4 |
| CommandLoop.CommandRun | software/lms_ctr_app/main.c:296-853 | over any run of packets of any commands the FIFO register receives what the progress function says, before and since the latest portion 0, and the portions are counted alike |
| CommandLoop.UploadAmongOthers | software/lms_ctr_app/main.c:356-379 | over any such run the bytes received since the latest non-boot portion 0 are the payloads of portions 0 to last_portion, in order, if and only if no LMS7002 write packet since then addressed register 4; what came before is what the run up to that packet had sent |
| CommandLoop.NextPortionAccepted | software/lms_ctr_app/main.c:612-787 | from last_portion k a packet with portion k + 1 has its 32 bytes written to the FIFO register, sets last_portion to k + 1 and is not answered WRONG_ORDER |
| CommandLoop.FirstPortionAccepted | software/lms_ctr_app/main.c:612-787 | portion 0 is accepted from every state and, unless it asks for a boot, writes its 32 bytes and sets last_portion to 0 |
| CommandLoop.OtherPortionsRefused | software/lms_ctr_app/main.c:617-624 | any other portion is answered WRONG_ORDER, and writes and changes nothing |
| CommandLoop.ModeIsSet | software/lms_ctr_app/main.c:626-674 | portion 0 writes 0 to the control register and then the mode, if it is 1, 2 or 3; everything else goes to the FIFO register |
| CommandLoop.UploadInOrder | software/lms_ctr_app/main.c:612-787 | over a run of packets with portions 0, 1, ..., n, the first no boot request, every packet is kept and the FIFO register receives all n + 1 payloads in order |
| PacketLaws.LastPortionChecked | software/lms_ctr_app/main.c:676-778 | portion 255 is answered ERROR exactly if none of the 30 status answers after the two waits has bit 6; no other portion that is accepted is |
| PacketLaws.RegistersComeBack | software/lms_ctr_app/main.c:356-437 | a 0x21 packet followed by a 0x22 packet, or a 0x55 by a 0x56, for the same registers: the reply carries the last value written, block by block, and the other chip has not been touched |
| PacketLaws.GpioIsRegisterWrite | software/lms_ctr_app/main.c:790-830 | a GPIO write is the one-block write, with the two data bytes swapped, of register 0xC4 or 0xC6 of the board |
| PacketLaws.GpioIsRegisterRead | software/lms_ctr_app/main.c:804-846 | a GPIO read answers with the two bytes of a one-block read of register 0xC4 or 0xC2, swapped |
| PacketLaws.AnsweredByNumber | software/lms_ctr_app/main.c:303-312 | every reply has 64 bytes and carries the command number, and the two bytes after the status, of its packet |
| PacketLaws.UnknownCommands | software/lms_ctr_app/main.c:316-853 | the status is UNKNOWN exactly for a command number that is none of the fourteen |
| PacketLaws.BlocksThatDoNotFit | software/lms_ctr_app/main.c:77-88 | the status is BLOCKS_ERROR exactly if the blocks, at their size, exceed the 56 bytes of the data field |
| PacketLaws.AnalogWriteChecked | software/lms_ctr_app/main.c:568-609 | the status is ERROR exactly if a block is for another channel or unit or has a high byte |
| CommandLoop.StrayByte | software/lms_ctr_app/main.c:361-374 | the failing packet: one block for register 4 in the middle of an upload |
| TimeOfDay.Clock.Set | software/lms_ctr_bsp/HAL/src/alt_settod.c:72-96 | stores the reset time for the present tick, or reports ENOSYS and changes nothing |
| TimeOfDay.Clock.Get | software/lms_ctr_bsp/HAL/src/alt_gettod.c:71-124 | both normalisation loops terminate and compute the normal form of the raw time |
| TimeOfDay.NormalIsExact | software/lms_ctr_bsp/HAL/src/alt_gettod.c:95-112 | the loops keep the number of microseconds, with 0 <= usec < 1000000, and clamp exactly a negative fraction of a second that is not positive |
| TimeOfDay.SetThenGet | software/lms_ctr_bsp/HAL/src/alt_gettod.c:91-112 | for every tick rate, every set time, and whether or not the counter has wrapped since, gettimeofday returns the set time plus what the ticks count for plus the error of settimeofday's 32-bit product, normalised, or zero if the seconds are not positive and the fraction is negative; from the epoch on that is when the total is negative |
| TimeOfDay.ElapsedIsShown | software/lms_ctr_bsp/HAL/src/alt_settod.c:82-84 | for rates that divide 1000000, a counter that has not wrapped and a time from the epoch on, this is the set time plus the elapsed ticks if and only if that product is exact modulo a second, or the clamp hides its error at the epoch |
| TimeOfDay.FittingProduct | software/lms_ctr_bsp/HAL/src/alt_settod.c:83-84 | a product that fits in 32 bits is exact |
| TimeOfDay.OverflowAfterAnHour | software/lms_ctr_bsp/HAL/src/alt_settod.c:83-84 | a concrete overflow, 71 minutes after start at 1000 ticks a second |
| TimeOfDay.Monotone | software/lms_ctr_bsp/HAL/src/alt_gettod.c:91-112 | for rates that divide 1000000 and times from the epoch on later reads never show an earlier time, however the time was set |
| TimeOfDay.BackwardsBeforeTheEpoch | software/lms_ctr_bsp/HAL/src/alt_gettod.c:95-107 | before the epoch they may: a concrete tick at which the clamp shows the epoch and the next one a second before it |
| TimeOfDay.NeverRunsBackExactly | software/lms_ctr_bsp/HAL/src/alt_gettod.c:91-93 | what the ticks count for grows with the ticks if and only if the rate divides 1000000 or exceeds it |
| IntegerPrinter.PrintThenParse | software/lms_ctr_bsp/HAL/src/alt_log_printf.c:207-297 | reading the printed text back gives the value for every word, signed or not, base, width, padding and case, the smallest integer included |
| IntegerPrinter.PrintedLength | software/lms_ctr_bsp/HAL/src/alt_log_printf.c:257-279 | the text is max(width, sign + digits) long and ends with the digits |
| IntegerPrinter.NoSuperfluousZero | software/lms_ctr_bsp/HAL/src/alt_log_printf.c:247-255 | the first digit is 0 only for the value 0 |
| FormatLaws.IntegersMean | software/lms_ctr_bsp/HAL/src/alt_log_printf.c:140-304 | what %d and %i print reads back, in base 10, as the signed value of the argument, %u as the unsigned one, %o in base 8, %x and %X in base 16, with any width and padding |
| FormatLaws.Alphabet | software/lms_ctr_bsp/HAL/src/alt_log_printf.c:281-296 | the sixteen digits are 0 to 9 and a to f, or A to F |
| FormatLaws.CaseOfDigits | software/lms_ctr_bsp/HAL/src/alt_log_printf.c:288-291 | %X prints no lower-case letter and %x no upper-case one |
| FormatLaws.IntegersArePadded | software/lms_ctr_bsp/HAL/src/alt_log_printf.c:257-279 | the text is as long as the width, or as the text without a width if that is longer; zeros instead of blanks are used exactly when asked for, and only the signed letters print a minus sign |
| FormatLaws.OthersMean | software/lms_ctr_bsp/HAL/src/alt_log_printf.c:306-332 | %c prints the character, %s the string, right-justified with spaces to the width; every letter without a case prints nothing |
| FormatLaws.OneArgumentEach | software/lms_ctr_bsp/HAL/src/alt_log_printf.c:140-332 | each conversion takes one argument, and the next one takes the next |
| FormatLaws.LiteralText | software/lms_ctr_bsp/HAL/src/alt_log_printf.c:146-149 | text before the first % is printed as it is |
| FormatLaws.PercentSign | software/lms_ctr_bsp/HAL/src/alt_log_printf.c:158-162 | %% prints one % and takes no argument |
| FormatLaws.PlainDirective | software/lms_ctr_bsp/HAL/src/alt_log_printf.c:140-341 | a directive without modifiers prints its conversion of the first argument without padding, and the rest of the format follows |
| FormatLaws.ZeroDirective | software/lms_ctr_bsp/HAL/src/alt_log_printf.c:153-157 | a leading 0 pads with zeros |
| FormatLaws.WidthWritten | software/lms_ctr_bsp/HAL/src/alt_log_printf.c:172-195 | the digits after it are the width in decimal |
| FormatLaws.MinusFive | software/lms_ctr_bsp/HAL/src/alt_log_printf.c:140-304 | with the argument 0xFFFFFFFB, %d prints -5, padded as asked for, and what %u prints is 4294967291 |
| Printers.Port.CountDigits | software/lms_ctr_bsp/HAL/src/alt_log_printf.c:247-255 | the place value is the largest power of the base not above the value and always fits in 32 bits |
| Printers.Port.PutDigits | software/lms_ctr_bsp/HAL/src/alt_log_printf.c:281-296 | the printing loop emits the digits, most significant first, and stops after the last place |
| Printers.Port.PrintInteger | software/lms_ctr_bsp/HAL/src/alt_log_printf.c:206-297 | an integer conversion emits the specified text: padding, sign and digits in the right order |
| Printers.Port.PrivatePrintf | software/lms_ctr_bsp/HAL/src/alt_log_printf.c:114-341 | the format state machine emits what a recursive reading of the format, directive by directive, stands for |
| Printers.Port.PrintHex | software/lms_ctr_bsp/HAL/src/alt_printf.c:84-113 | shifts and masks emit the same digits as repeated division |
| Printers.Port.PlainPrintf | software/lms_ctr_bsp/HAL/src/alt_printf.c:51-132 | alt_printf emits the rendering of its directives |
| Printers.PrintersAgree | software/lms_ctr_bsp/HAL/src/alt_printf.c:60-128 | on every format without modifiers and without d, i, u, o and X the two printers emit the same characters, whatever the arguments |
| Printers.PlainIgnoresDecimal | software/lms_ctr_bsp/HAL/src/alt_printf.c:72-122 | a format on which they differ |
| Allocator.StepInv | software/lms_ctr_bsp/HAL/src/alt_sbrk.c:68-95 | either allocator keeps all blocks word aligned, inside the heap, pairwise disjoint and apart from the free rest of the slab |
| Allocator.RunInv | software/lms_ctr_bsp/HAL/src/alt_gmon.c:133-148 | hence any interleaving of the two from an empty heap does |
| Allocator.SlabEndKept | software/lms_ctr_bsp/HAL/src/alt_gmon.c:137-145 | slab pointer plus remaining size is always the end of the latest slab |
| Allocator.McountReturnsMemory | software/lms_ctr_bsp/HAL/src/alt_gmon.c:133-148 | mcount_allocate returns word-aligned heap memory that overlaps no block in use if and only if the slab it cuts from was really obtained |
| Allocator.ShrinkInv | software/lms_ctr_bsp/HAL/src/alt_sbrk.c:73-95 | a negative increment, which is not checked, keeps the blocks sound if and only if the memory given back is in none of them |
| Allocator.NegativeSbrkOverlaps | software/lms_ctr_bsp/HAL/src/alt_sbrk.c:73-95 | the failing run: memory given back too early is handed out twice |
| Allocator.FullHeapGivesMinusOne | software/lms_ctr_bsp/HAL/src/alt_gmon.c:137-147 | on a full heap it hands out -1, and then 15, as addresses |
| Allocator.SbrkGrants | software/lms_ctr_bsp/HAL/src/alt_sbrk.c:68-95 | a request that fits below the limit from the next word boundary on is granted there, and the heap ends with it; one that does not gives -1 and costs no more than the alignment |
| Allocator.McountCuts | software/lms_ctr_bsp/HAL/src/alt_gmon.c:133-148 | memory is cut off the front of the slab as long as it lasts, without touching the heap; otherwise a new slab is taken at the next word boundary |
| Allocator.Memory.SbrkCall | software/lms_ctr_bsp/HAL/src/alt_sbrk.c:68-110 | ALT_SBRK refines the step for every increment, and keeps the invariant for those that are not negative |
| Allocator.Memory.McountAllocate | software/lms_ctr_bsp/HAL/src/alt_gmon.c:133-148 | mcount_allocate refines the step and keeps the invariant |

## Left out

- AlarmService.TickService.Start: asks that the alarm is not registered already; the code would link it a second time and corrupt the list.
- AlarmService.TickService.Tick: asks the same of the alarms that callbacks start, and excludes callbacks that stop alarms other than their own or start their own again: the walk has read the successor before the callback, and re-arms the alarm after it. Stopping the successor is fatal (`StoppedSuccessorTrapsTheWalk`); stopping any other alarm is not modelled.
- TimeOfDay.SetThenGet: covers the times that a signed 32-bit number of seconds holds.
- UartDriver.Uart.ReadBytes: says nothing of the bytes returned once a byte has been stored into a full ring.
- CommandLoop.HandlePacket: leaves open the values in the reply of ANALOG_VAL_RD, and does not model that ANALOG_VAL_RD, which has no block check, writes beyond the reply for more than 14 blocks.
- SpiMaster.Controller.Command: asks for a positive total length, without which the call does not return (`EmptyCall`).
- Blocking waits of `Write`, `Close` and `ReadBytes` on a UART that makes no progress: `patience` cuts such a run short and the result `StillWaiting` says so; that a line which keeps sending drains the ring is `UartDriver.LineDrains`.
- `Write` reports a full ring in non-blocking mode by its count alone: errno is not modelled there.
- `ALT_SEM_*` and `ALT_FLAG_*`: empty in this single-threaded build.
- The small UART drivers and `altera_avalon_uart_ioctl.c`: polling and single branches.
- `spiFastRead`: FlashSpiTransfer always sets it, so the branch that waits before a read is dead.
- The flash chip, the two register files and the SPI and UART hardware: modelled from the commands the firmware sends; their data sheets are not part of this model.
- Register reads of the MCU status register in `PacketRoundTrip`: its answers change by themselves.
- What the commands outside this bus do, the FIFO to the host, I2C, and real-time delays. A reset of the LMS7002 is not modelled as emptying the MCU.
- A self-test of the flash in main.c:141-165 is commented out; it erases, writes and reads without waiting in between.
- Name lookup in `open`: `Target` stands for its outcome, and the driver's own return value is a parameter.
- The values of O_APPEND and O_NONBLOCK come from the C library, which is not part of this model; the usual ones are used.
- `alt_io_redirect`, `alt_stat`, stub system calls, exception entry, cache code.
- Widths and precisions of more than nine digits: the C integer overflows there, the model's does not.
- Profiler requests that are not whole words or exceed a slab.
- The call graph and histogram of `alt_gmon.c`, whose fast path is assembler.
