# Bochs: timers, queues, BIOS disk services, a code translator and checksums

This project models, in Dafny, five parts of the Bochs PC emulator and proves what they are for.

**The timer framework** (`bochs/pc_system.cc`, `bochs/pc_system.h`, and the multiprocessor loop of
`bochs/main.cc`). 64 slots with 64-bit fire times are driven by one 32-bit countdown.
`Countdown.dfy` gives the scheduler as functions on a value, `PcSystem.dfy` gives the object with its
slot array and machine-width fields and proves every method equal to those functions. `NaiveScan.dfy`
is the simple scheduler that the countdown speeds up: at every tick, look at all the slots.
`SchedulerEquivalence.dfy` proves that both leave the same trace, for every run and every behaviour of
the callbacks, exactly when no slot is taken over. `TimerFirings.dfy` says when a timer fires,
`TimerExamples.dfy` has runs that show the corner cases, `SmpLoop.dfy` and `SequentialTime.dfy` are
about the clock.

**Intrusive queues** (`bochs/qemu-queue.h`). `IntrusiveLinks.dfy`, `TailQueue.dfy`, `LinkedList.dfy` and
`SimpleQueue.dfy` keep the links as the macros do: a back link is the address of a field
(`HeadSlot` or `NextSlot`), and an element can be read as if it were a head. A ghost sequence is what
each queue stands for.

**BIOS disk and keyboard services** (`bochs/bios/rombios.c`). `PacketTransfer.dfy` and
`CdEmulation.dfy` go from a BIOS read of an emulated floppy to the pieces a drive sends,
`DiskGeometry.dfy` has the geometry translation and the sector addresses, `AtaRegisters.dfy` the
register loads, `KeyBuffer.dfy` the key ring. Arithmetic is 8, 16 or 32 bits wide where the code's is.

**An emulator and a translator** (`bochs-performance/testcases/blur-translate.c` and `.h`).
`BlurTranslate.dfy` has the opcode emulator, the code generator and the meaning of the generated
statements, `GeneratedLoop.dfy` the loop that the generated function is, for every program, and
`BlurProgram.dfy` the blur program and its reference.

**Checksums** (`bochs/crc.cc`, `bochs/bios/biossums.c`). `Crc32.dfy` takes the table-driven CRC down to
polynomial long division; `BiosSums.dfy` has the checksum fixer for BIOS images.

`dafny verify dfyconfig.toml` checks everything.

## How the models are set up

- A timer callback is any function of everything that has happened so far (`Script`): it yields the
  calls of the timer interface that the callback makes. Callbacks do not call `tickn` themselves.
- Callers keep what the `BX_TIMER_DEBUG` checks ask for, and fire times stay below 2^64. A run that
  breaks this is `None`; the theorems speak about the others. Activating a slot that is not in use is
  not forbidden by those checks and is modelled.
- A drive answers a packet with pieces of its own choosing and may fail at any point. It is a function
  from packets to sessions of which only `Serves` is known.
- `None` also stands for a blur program that points outside its array, whether or not it uses the
  pointer, and for an opcode list without an end.

## What the proofs show about the code

- The countdown scheduler differs from the scan in one situation only: a timer is registered into a
  slot that is due in that tick and has not had its turn. It is then called at once, however far in
  the future its fire time is (`TakenOverSlotFiresEarly`, `FirstTakeOver`). Where no callback registers
  timers this cannot happen (`SameTraceIfNoneRegisters`).
- A timer that an earlier callback deactivates in the tick in which it is due is still called: while it
  stays registered it is called if and only if it was due when the tick began (`DueIsCalled`;
  `DeactivatedTimerFires` is a run).
- `register_timer_ticks` fails exactly when `numTimers` is 64 (`RegisterResult`), even when a slot below
  is free, and such a state can be reached (`FreeSlotNotFound`).
- The multiprocessor loop loses 2^32 instructions each time its 32-bit sum wraps (`SumWraps` is a run) and
  for every 2^32 that one turn runs (`TurnOverruns`, `ChargeIsExactIff`); `SimLoop` states the whole
  account. A bound on one turn rules both out (`BoundedTurns`).
- LBA translation looks at the low 32 bits of the disk size only and computes heads and cylinders in 16
  bits. From 1,052,835,840 sectors on the cylinders can wrap, at that size to none (`CylindersWrapAt`);
  from 4,227,858,432 on the heads wrap too (`HeadsWrapAt` has an instance). `LbaIntendedIff` is the
  exact condition for the geometry that is meant.
- The CD emulation accepts sector 0 and then reads 65,536 sectors behind the place that `sector - 1`
  would mean (`VirtualBlockIff`).
- Generated code counts its loop with the `x` and `y` that the moves change. Of the programs the
  emulator can run, it gives the emulator's output for those whose moves add up to nothing and, among
  those that never store, for the ones whose loop ends; for no others (`SameOutputIff`). The loop of
  some never ends (`EndsIffFinite`), and `SkippingSkips` is a program that leaves pixels out.
- The BIOS checksum fixer refuses a PCMP header with extended tables, but a PCI or MP header 32 bytes into
  it, if it is the only one of its kind, has its checksum on one of the three bytes that must be zero, and
  its pass, which comes first, clears that byte. So the fixer's own writes never make it give up
  (`NeverSpoiled`) and can save it from that (`Rescued`); `FixImage` has the exact condition.

## Model

| member | source | states |
|---|---|---|
| `TimerTable.Due` | bochs/pc_system.cc:345-374 | exactly the active slots whose fire time is now, in ascending order |
| `Countdown.Perform` | bochs/pc_system.cc:267-325 | every call of the timer interface keeps the invariant and does not move the clock |
| `Countdown.Settle` | bochs/pc_system.cc:342-380 | an event leaves a countdown of at least one tick, the clock at the end of the old period, and no active timer due before the new period ends |
| `Countdown.CountdownEvent` | bochs/pc_system.cc:327-391 | every callback, and whatever it calls, sees the invariant and the scheduled time |
| `Countdown.Run` | bochs/pc_system.h:106-133 | over any run of ticks and calls the invariant holds and the clock has grown by exactly the ticks handed over |
| `Countdown.ReachableInRange` | bochs/pc_system.cc:62-67 | in every reachable state 1 <= countdown <= period <= 2^32 - 1, and no active timer is due before the period ends |
| `Countdown.TickNIsTicks` | bochs/pc_system.h:106-121 | `tickn(n)` is `n` times `tick1`: same state, same trace, same failures, for every callback behaviour |
| `NaiveScan.TickSteps` | bochs/pc_system.cc:353-390 | the scan calls only slots due now, ascending and each at most once, and all of those whose registration has not changed in the tick |
| `SchedulerEquivalence.RunAgrees` | bochs/pc_system.cc:267-391 | from any agreeing states, a run of the scan without a take-over is matched step for step: same table, time and trace |
| `SchedulerEquivalence.RunClash` | bochs/pc_system.cc:382-390 | a legal run of the countdown scheduler that the scan cannot make has had a take-over before |
| `SchedulerEquivalence.RunDiverges` | bochs/pc_system.cc:382-390 | after a take-over there is a time and a slot at which the countdown scheduler has called and the scan has not |
| `SchedulerEquivalence.SameTraceIffNoClash` | bochs/pc_system.cc:267-391 | from power-on, for every run and script without a take-over: legal for both schedulers or for neither, with the same table, time and trace; after a take-over of a due slot the traces differ |
| `SchedulerEquivalence.FirstTakeOver` | bochs/pc_system.cc:382-390 | every run with a take-over, legal to the end or not, has a first one; up to it both schedulers agree, and there the one enters the callback of the timer that has taken the slot and the other passes the slot over |
| `SchedulerEquivalence.SameTraceIfNoneRegisters` | bochs/pc_system.cc:267-391 | if no callback registers timers the schedulers agree on every run |
| `TimerExamples.TakenOverSlotFiresEarly` | bochs/pc_system.cc:385-388 | a run in which a timer due at time 101 is called at time 1 |
| `TimerExamples.DeactivatedTimerFires` | bochs/pc_system.cc:382-390 | a run in which a timer is called right after it has been deactivated |
| `TimerExamples.FreeSlotNotFound` | bochs/pc_system.cc:280-289 | a run after which slot 1 is free and every registration fails |
| `TimerTable.RegisterResult` | bochs/pc_system.cc:280-324 | -1 if and only if `numTimers` is 64, with nothing changed; else the lowest free slot and no other is taken |
| `TimerFirings.UntouchedFirings` | bochs/pc_system.cc:353-373 | a timer nobody touches fires exactly at the times its slot implies, whatever the other timers and callbacks do |
| `TimerFirings.ActivatedFirings` | bochs/pc_system.cc:484-516 | activated at T with period p, a continuous timer calls its handler at T+p, T+2p and so on, N/p times in N ticks; a one-shot timer once, at T+p; a delay of 0 is one of 1 |
| `TimerFirings.RegisteredFirings` | bochs/pc_system.cc:267-325 | the same for a timer registered active, with the handler it was registered with; one registered inactive is never called |
| `TimerFirings.DeactivatedFirings` | bochs/pc_system.cc:573-583 | a timer that has been deactivated is not called any more |
| `TimerFirings.DeactivatedIsUnregistered` | bochs/pc_system.cc:573-613 | right after its deactivation a timer can be unregistered, and its slot is free |
| `TimerFirings.NullTimerFirings` | bochs/pc_system.cc:40-67 | in every run from power-on the null timer is called every 2^32 - 1 ticks |
| `TimerFirings.NextEvent` | bochs/pc_system.cc:308-316 | starting a timer moves the end of the countdown to when it is due, if that is earlier; no other call moves it |
| `TimerFirings.CallsAllowed` | bochs/pc_system.cc:486-494 | exactly which calls of the timer interface the model lets through |
| `TimerFirings.SilentTicks` | bochs/pc_system.h:111-121 | ticks are always possible while time and periods fit in 64 bits and the callbacks call nothing |
| `TimerTable.UnregisterResult` | bochs/pc_system.cc:596-612 | fails exactly while the timer is active, with nothing changed; else that slot is reset and no other, and `numTimers` goes down for the last one |
| `TimerTable.RoomAgain` | bochs/pc_system.cc:610 | a registration right after unregistering the last slot succeeds |
| `TimerFirings.DueIsCalled` | bochs/pc_system.cc:353-390 | a timer whose registration is kept is called in a tick if and only if it was due when the tick began, with its own handler, whatever else the callbacks before it do to it |
| `TimerFirings.OnlyDueFires` | bochs/pc_system.cc:353-390 | a tick calls only slots that were due when it began, at their time, ascending and each at most once, take-overs included |
| `PcSystem.System.constructor` | bochs/pc_system.cc:43-79 | construction and `initialize` give the initial state, in which the invariant holds |
| `PcSystem.System.TimeTicks` | bochs/pc_system.h:130-133 | the 64-bit expression is the current time |
| `PcSystem.System.FireTime` | bochs/pc_system.cc:299 | the mixed 32-bit and 64-bit expression is now plus the delay, without a wrap |
| `PcSystem.System.FindFree` | bochs/pc_system.cc:280-284 | the lowest free slot from 1 on, or `numTimers` |
| `PcSystem.System.RegisterTimerTicks` | bochs/pc_system.cc:267-325 | registration: whole new state, slot number or -1 |
| `PcSystem.System.ActivateTimerTicks` | bochs/pc_system.cc:484-516 | activation: whole new state |
| `PcSystem.System.DeactivateTimer` | bochs/pc_system.cc:573-583 | deactivation: whole new state; the countdown is left alone |
| `PcSystem.System.UnregisterTimer` | bochs/pc_system.cc:585-613 | fails and changes nothing while the timer is active; else frees the slot |
| `PcSystem.System.Service` | bochs/pc_system.cc:347-373 | one slot is rearmed or put out exactly when due, and the earliest fire time is brought up to date |
| `PcSystem.System.ServiceTimers` | bochs/pc_system.cc:345-374 | the first loop: which slots are marked, the rearmed table, the first and last marked slot, the next fire time |
| `PcSystem.System.CallTriggered` | bochs/pc_system.cc:382-390 | the second loop calls exactly the marked slots that have a handler, in ascending order |
| `PcSystem.System.CountdownEvent` | bochs/pc_system.cc:327-391 | the event handler in machine arithmetic is the event of the model; narrowing the interval to 32 bits loses nothing |
| `PcSystem.System.Tick1` | bochs/pc_system.h:106-110 | one tick is that of the model |
| `PcSystem.System.TickN` | bochs/pc_system.h:111-121 | `n` ticks are those of the model; the loop terminates |
| `TimerReplay.Replay` | bochs/pc_system.cc:267-391 | the object, driven through any legal run, leaves the trace of the per-tick scan if and only if no slot was taken over |
| `SmpLoop.StepConserves` | bochs/main.cc:1085-1094 | one pass of the loop neither loses nor makes ticks, except 2^32 when its sum wraps |
| `SmpLoop.TicksConserved` | bochs/main.cc:1078-1096 | at every pass, ticks delivered times processors plus the remainder plus 2^32 for every wrap is the instructions charged; after a round the remainder is below one tick |
| `SmpLoop.TurnsTaken` | bochs/main.cc:1090-1091 | after k turns it is the turn of processor k modulo their number |
| `SmpLoop.TicksDelivered` | bochs/main.cc:1088-1094 | after any number of turns exactly the ticks of the complete rounds have been delivered: what was charged in them, divided by the number of processors |
| `SmpLoop.BoundedTurns` | bochs/main.cc:1086-1094 | no wrap and no overrun if a round of the largest turn fits in 32 bits |
| `SmpLoop.ChargeIsExactIff` | bochs/main.cc:1086-1087 | when a turn is charged exactly what it ran |
| `SmpLoop.ChargedIs` | bochs/main.cc:1086-1088 | over a run, the charges are what was run plus the quanta of idle turns, less 2^32 for every overrun |
| `SmpLoop.SumWraps` | bochs/main.cc:1088 | two turns whose 2^32 instructions leave no trace |
| `SmpLoop.TurnOverruns` | bochs/main.cc:1086-1087 | turns that run more than 2^32 instructions and are charged 5 or the quantum |
| `SmpLoop.Turn` | bochs/main.cc:1080-1096 | one pass on the timer object, in 32-bit arithmetic, wraps included |
| `SmpLoop.SimLoop` | bochs/main.cc:1069-1096 | for every sequence of traces: whose turn is next, what each processor has run, and that ticks times processors, plus the remainder, plus 2^32 for every wrap and overrun, are the instructions run plus the quanta of idle turns |
| `SequentialTime.ReadingsAreSequential` | bochs/pc_system.cc:456-470 | readings are strictly increasing and always ahead of the clock |
| `SequentialTime.ReadingsAreEarliest` | bochs/pc_system.cc:456-470 | and no later than that requires: a clock value or the reading before the first, plus the readings since |
| `SequentialTime.Clock.TimeUsecSequential` | bochs/pc_system.cc:456-470 | a reading is max(previous reading, clock) + 1 modulo 2^64; all cases of a clock that has gone back |
| `SequentialTime.TakeReadings` | bochs/pc_system.cc:456-470 | a whole run of the object with a clock that never goes back |
| `IntrusiveLinks.Unlinked` | bochs/qemu-queue.h:378-385 | leaving out one element keeps all links and back links right |
| `IntrusiveLinks.LinkedIn` | bochs/qemu-queue.h:361-376 | putting in one element keeps all links and back links right |
| `TailQueue.Queue.InsertHead` | bochs/qemu-queue.h:344-352 | the sequence grows at the front |
| `TailQueue.Queue.InsertTail` | bochs/qemu-queue.h:354-359 | the sequence grows at the end |
| `TailQueue.Queue.InsertAfter` | bochs/qemu-queue.h:361-369 | insertion behind any element, the last one included |
| `TailQueue.InsertBefore` | bochs/qemu-queue.h:371-376 | insertion before any element, the first one included, without a head |
| `TailQueue.Queue.Remove` | bochs/qemu-queue.h:378-385 | removal of any element, at either end too |
| `TailQueue.Queue.Last` | bochs/qemu-queue.h:409-410 | the cast of the tail link finds the last element, NULL on an empty queue |
| `TailQueue.Queue.Prev` | bochs/qemu-queue.h:411-412 | the cast of the back link finds the previous element, NULL for the first |
| `TailQueue.Queue.Foreach` | bochs/qemu-queue.h:387-390 | visits the sequence |
| `TailQueue.Queue.ForeachReverse` | bochs/qemu-queue.h:397-400 | visits exactly the reversed sequence and stops |
| `TailQueue.Replay` | bochs/qemu-queue.h:339-412 | after any sequence of operations the queue is what the sequence operations give, with its true last element and its reversal |
| `LinkedList.Head.InsertHead` | bochs/qemu-queue.h:122-127 | the sequence grows at the front |
| `LinkedList.InsertAfter` | bochs/qemu-queue.h:107-113 | insertion behind any element |
| `LinkedList.InsertBefore` | bochs/qemu-queue.h:115-120 | insertion before any element, the first one included, without a head |
| `LinkedList.Remove` | bochs/qemu-queue.h:140-145 | removal of any element, without a head |
| `LinkedList.Head.Foreach` | bochs/qemu-queue.h:147-150 | visits the sequence |
| `SimpleQueue.Queue.InsertHead` | bochs/qemu-queue.h:248-252 | the sequence grows at the front; the tail pointer is set on an empty queue |
| `SimpleQueue.Queue.InsertTail` | bochs/qemu-queue.h:254-258 | the sequence grows at the end |
| `SimpleQueue.Queue.InsertAfter` | bochs/qemu-queue.h:260-264 | insertion behind any element, the last one included |
| `SimpleQueue.Queue.RemoveHead` | bochs/qemu-queue.h:266-269 | the first element goes; the tail pointer is reset when the queue is empty |
| `SimpleQueue.Queue.Remove` | bochs/qemu-queue.h:271-282 | the search finds the predecessor, any element can go |
| `SimpleQueue.Queue.Last` | bochs/qemu-queue.h:302-306 | the last element, NULL on an empty queue |
| `SimpleQueue.Queue.Foreach` | bochs/qemu-queue.h:284-287 | visits the sequence |
| `SimpleQueue.Concat` | bochs/qemu-queue.h:294-300 | the first queue becomes the concatenation, the second one empty |
| `PacketTransfer.KeptCons` | bochs/bios/rombios.c:3393-3413 | whatever follows a piece, the kept part of it all is that of the piece followed by that of the rest |
| `PacketTransfer.PlacedIsWritten` | bochs/bios/rombios.c:3385-3387 | with a buffer that ends within one megabyte the normalized addresses put the parts one behind the other, for every way of cutting |
| `PacketTransfer.Divide` | bochs/bios/rombios.c:3393-3413 | the code's split of a piece is the right one: skipped, kept and discarded bytes add up to it |
| `PacketTransfer.InsertWords` | bochs/bios/rombios.c:3481-3488 | two- and four-byte moves put the bytes into memory in order and touch nothing else |
| `PacketTransfer.TransferPiece` | bochs/bios/rombios.c:3385-3519 | one piece, at any address: normalized modulo one megabyte, counters advanced, read to its end in whole words, exactly its wanted bytes in memory |
| `PacketTransfer.AtaCmdPacket` | bochs/bios/rombios.c:3276-3533 | every return code; for every way of cutting the data, the whole of memory, and within one megabyte the wanted part of the stream in one piece |
| `CdEmulation.VirtualBlockIff` | bochs/bios/rombios.c:6383 | the 16/32-bit expression is the sector number if and only if the sector is not 0 and the number fits in 32 bits; what sector 0 gives |
| `CdEmulation.LetThrough` | bochs/bios/rombios.c:6369-6374 | the checks let through exactly the addresses of the sectors 0 to cylinders*heads*spt - 1, and sector 0 of every track |
| `CdEmulation.SameUnpacking` | bochs/bios/rombios.c:6359-6360 | CH and CL are unpacked as by the hard disk services |
| `CdEmulation.PacketRoundTrip` | bochs/bios/rombios.c:6395-6404 | the packet is a READ (10) and decodes to the block and count it was made from |
| `CdEmulation.WantedBytes` | bochs/bios/rombios.c:6388-6405 | dropping `before` sectors of the requested blocks and keeping `count` leaves exactly the wanted bytes of the image |
| `CdEmulation.ReadImage` | bochs/bios/rombios.c:6388-6410 | succeeds exactly when the drive completes the packet that the code's arithmetic asks for; the whole of memory after that; with 32-bit block numbers the data are exactly image bytes [vlba*512, (vlba+n)*512) |
| `CdEmulation.AskedIs` | bochs/bios/rombios.c:6388-6404 | with 32-bit block numbers the packet asks for the blocks that hold the sectors |
| `CdEmulation.ReadSectors` | bochs/bios/rombios.c:6351-6412 | functions 02h and 04h, for every request and buffer: that exactly the requests for a sector of the medium, and those for sector 0 of one of its tracks, are let through, every outcome, and the whole of memory after a read and after a failed one |
| `DiskGeometry.TranslateLba` | bochs/bios/rombios.c:2793-2803 | for every disk size the logical capacity is at most the real one, with 16 to 255 heads and at most 1024 cylinders; it is the intended geometry exactly for `LbaExact` disks |
| `DiskGeometry.LbaIntendedIff` | bochs/bios/rombios.c:2794-2802 | from the size in 32 bits, with heads and cylinders in 16: the exact condition for the geometry that unnarrowed arithmetic gives |
| `DiskGeometry.LbaFits` | bochs/bios/rombios.c:2793-2824 | the narrowed geometry never exceeds the disk |
| `DiskGeometry.LbaExactBelow` | bochs/bios/rombios.c:2796-2802 | below 1,052,835,840 sectors the geometry is always the intended one |
| `DiskGeometry.CylindersWrapAt` | bochs/bios/rombios.c:2802 | at that size the logical disk has no cylinders instead of 1024 |
| `DiskGeometry.HeadsWrapAt` | bochs/bios/rombios.c:2796-2801 | at 4,228,890,624 sectors it has 16 heads instead of 255 |
| `DiskGeometry.HalveCylinders` | bochs/bios/rombios.c:2812-2820 | for any 16-bit head count the loop terminates after the fewest halvings that do, and never raises the capacity |
| `DiskGeometry.HalvesIs` | bochs/bios/rombios.c:2813-2819 | k halvings are a division by 2^k and a 16-bit multiplication by 2^k |
| `DiskGeometry.FullyHalvedMeans` | bochs/bios/rombios.c:2812-2820 | a halving for every step over 1024 cylinders, none after 127 heads have been passed |
| `DiskGeometry.FullyHalvedIsUnique` | bochs/bios/rombios.c:2812-2820 | the conditions on the result of the loop leave only one geometry |
| `DiskGeometry.ReviseHeads` | bochs/bios/rombios.c:2804-2810 | 16 heads become 15 with as many cylinders as the clipped disk has room for, within 16 bits; other disks are left alone |
| `DiskGeometry.ClipIsTight` | bochs/bios/rombios.c:2807-2809 | 61439 is the largest number of cylinders that can be scaled within 16 bits |
| `DiskGeometry.Translate` | bochs/bios/rombios.c:2790-2829 | all four translations, for any physical geometry: at most 1024 cylinders, never more than the physical capacity; at most 255 heads for LBA or up to 127 physical ones |
| `DiskGeometry.AddressRecovered` | bochs/bios/rombios.c:5748-5774 | accepted addresses map below the capacity and division gives them back |
| `DiskGeometry.BlockReached` | bochs/bios/rombios.c:5757-5774 | every block of the logical disk is the image of an accepted address |
| `DiskGeometry.PackingRoundTrip` | bochs/bios/rombios.c:5739-5743 | unpacking undoes packing if and only if the cylinder is below 1024 and the sector below 64 |
| `DiskGeometry.ReportedIsLast` | bochs/bios/rombios.c:5801-5811 | what function 08h reports is, for function 02h, the last sector of the logical disk |
| `AtaRegisters.SplitBlock` | bochs/bios/rombios.c:3075-3087 | the six address bytes decode to the 48-bit block |
| `AtaRegisters.ShortForm` | bochs/bios/rombios.c:3074 | the 32-bit test picks the short form exactly when the count is below 256 and the block that many sectors on is below 2^28 |
| `AtaRegisters.Port.LoadBlock` | bochs/bios/rombios.c:3072-3096 | through the two-deep latches the selected drive decodes the requested block and count, in either form, for every count and every block |
| `KeyBuffer.PushedContents` | bochs/bios/rombios.c:5405-5417 | storing at the tail appends to the queue |
| `KeyBuffer.PoppedContents` | bochs/bios/rombios.c:5050-5055 | moving the head drops the oldest key |
| `KeyBuffer.DataArea.constructor` | bochs/bios/rombios.c:11240-11253 | the power-on values make an empty, well-formed buffer |
| `KeyBuffer.DataArea.EnqueueKey` | bochs/bios/rombios.c:5390-5420 | appends a key, scan code high, unless there are 15; then nothing changes |
| `KeyBuffer.DataArea.DequeueKey` | bochs/bios/rombios.c:5027-5061 | the oldest key, taken out or only looked at |
| `KeyBuffer.DataArea.Flush` | bochs/bios/rombios.c:5279 | Ctrl-Break empties the buffer; its interrupt handler and the zero key after that are further operations |
| `KeyBuffer.StepsInOrder` | bochs/bios/rombios.c:5027-5061 | over any interleaving, the accepted keys are those gone followed by those waiting, in order |
| `KeyBuffer.Replay` | bochs/bios/rombios.c:5390-5420 | the data area gives the answers of a FIFO of capacity 15, for any interleaving of enqueues, peeks, dequeues and flushes |
| `BlurTranslate.EmulationIsTranslation` | bochs-performance/testcases/blur-translate.c:194-225 | on every pixel the emulator does what the generated statements do, and fails when generation does |
| `BlurTranslate.SubtractUndoesAdd` | bochs-performance/testcases/blur-translate.h:38-39 | subtracting and adding undo each other, at every pixel of every image |
| `BlurTranslate.MultiplyIsRepeatedAdd` | bochs-performance/testcases/blur-translate.h:37-40 | multiplying is repeated adding, or the opposite of it for a negative accumulator |
| `BlurTranslate.OpcodeNumbers` | bochs-performance/testcases/blur-translate.c:91-100 | which number stands for which opcode, and which operand comes first |
| `BlurTranslate.EmulatePixel` | bochs-performance/testcases/blur-translate.c:194-225 | the decoding loop is the emulation of the model |
| `BlurTranslate.EmulateOpcodes` | bochs-performance/testcases/blur-translate.c:176-227 | the emulator runs the program at every interior pixel, carrying the accumulator |
| `BlurTranslate.GenFunction` | bochs-performance/testcases/blur-translate.c:238-293 | the generator emits the translation of the whole list |
| `GeneratedLoop.RunTranslated` | bochs-performance/testcases/blur-translate.h:13-42 | the generated function is the loop of the model, for every body and input on which it ends |
| `GeneratedLoop.BalancedEnds` | bochs-performance/testcases/blur-translate.c:280-288 | if the moves add up to nothing it ends, with the emulator's output and accumulator |
| `GeneratedLoop.EndsIffFinite` | bochs-performance/testcases/blur-translate.c:280-288 | for a program that stays inside, it ends if and only if the moves add up to nothing, one column on or one row on |
| `GeneratedLoop.MissesSecond` | bochs-performance/testcases/blur-translate.c:280-288 | if the moves do not add up to nothing it never touches the second pixel, in any number of turns |
| `GeneratedLoop.UnbalancedDiffers` | bochs-performance/testcases/blur-translate.c:248-288 | then, if the program stores, there is for every image and accumulator an output array on which it never gives the emulator's output |
| `GeneratedLoop.SameOutputIff` | bochs-performance/testcases/blur-translate.c:176-293 | the programs that are translated correctly on all inputs, exactly |
| `GeneratedLoop.SkippingSkips` | bochs-performance/testcases/blur-translate.c:238-293 | a program whose generated function ends and leaves out a pixel that the emulator writes |
| `BlurTranslate.NearStaysInside` | bochs-performance/testcases/blur-translate.h:32-36 | staying within one step of the pixel keeps the load pointer inside |
| `BlurTranslate.FarLeaves` | bochs-performance/testcases/blur-translate.h:32-36 | any other body leaves the array at some pixel |
| `BlurTranslate.RunsIffNear` | bochs-performance/testcases/blur-translate.c:182-227 | a whole run stays inside if and only if the body stays within one step |
| `GeneratedLoop.CodeBlock.Execute` | bochs-performance/testcases/blur-translate.c:350-361 | translates on first use only, and leaves what the generated loop does |
| `GeneratedLoop.BothWays` | bochs-performance/testcases/blur-translate.c:176-293 | every balanced program that stays inside gives the same output and accumulator emulated and translated |
| `BlurProgram.BlurTranslates` | bochs-performance/testcases/blur-translate.c:112-135 | the statements the blur program translates to |
| `BlurProgram.BlurPixel` | bochs-performance/testcases/blur-translate.c:112-135 | the blur program computes the 3x3 window sum, whatever the accumulator held |
| `BlurProgram.BlurRaster` | bochs-performance/testcases/blur-translate.c:182-227 | over the whole image: window sums inside, the old values on the border |
| `BlurProgram.BlurReference` | bochs-performance/testcases/blur-translate.c:156-170 | the reference loops compute the same image |
| `BlurProgram.BlurThreeWays` | bochs-performance/testcases/blur-translate.c:156-361 | emulated, translated and reference blur agree on every image |
| `Crc32.GeneratorTerms` | bochs/crc.cc:39 | the generator has exactly the terms of the standard's |
| `Crc32.ExtendIsAppend` | bochs/crc.cc:53-68 | going on from a finalized CRC is the CRC of the concatenation, for every seed |
| `Crc32.TableStep` | bochs/crc.cc:46-50 | a table step is eight bit steps |
| `Crc32.FoldIsSerial` | bochs/crc.cc:64-67 | the byte-table form is the bit-serial form |
| `Crc32.SerialIsRemainder` | bochs/crc.cc:46-50 | the bit-serial form is long division by the generator, delayed by 32 places |
| `Crc32.CrcIsFrameCheck` | bochs/crc.cc:70-73 | for every message the CRC is the frame check sequence of section 3.2.9 of IEEE 802.3, most significant bit first |
| `Crc32.BurstDetected` | bochs/crc.cc:64-67 | messages of one length that differ only within 32 consecutive bits have different CRCs |
| `Crc32.FourBytesDetected` | bochs/crc.cc:64-67 | messages that differ only within 4 consecutive bytes have different CRCs |
| `Crc32.Table.BuildEntry` | bochs/crc.cc:47-49 | a table entry is eight bit steps of its index |
| `Crc32.Table.Build` | bochs/crc.cc:41-51 | all 256 entries are filled |
| `Crc32.Table.Look` | bochs/crc.cc:66 | the index is within the table and the entry is the right one |
| `Crc32.Table.Crc32Extend` | bochs/crc.cc:56-68 | the table is complete when read and built at most once; the result for every length, negative ones too |
| `BiosSums.Formats` | bochs/bios/biossums.c:37-89 | signatures, lengths, checksum places and least sizes of the five kinds of headers, by number |
| `BiosSums.PassOrder` | bochs/bios/biossums.c:130-242 | which kinds are passed after which |
| `BiosSums.PassBalances` | bochs/bios/biossums.c:141-144 | a singly found header whose checksum lies inside it adds up to zero after its pass |
| `BiosSums.PassKeepsHeaders` | bochs/bios/biossums.c:361-365 | no pass makes or destroys a signature |
| `BiosSums.PassKeepsLength` | bochs/bios/biossums.c:361-365 | no pass changes the length of a header |
| `BiosSums.ChainBalances` | bochs/bios/biossums.c:130-242 | after all passes every such header still adds up to zero, if no checksum of a kind passed later lies in it |
| `BiosSums.GetOffset` | bochs/bios/biossums.c:334-351 | the first header behind the aligned offset, or none |
| `BiosSums.NegatedSum` | bochs/bios/biossums.c:323-330 | the byte-wide loop gives the balancing value |
| `BiosSums.CalcValue` | bochs/bios/biossums.c:422-445 | which headers are refused, and the value for the others |
| `BiosSums.ScanHeaders` | bochs/bios/biossums.c:130-140 | whether all headers of a kind pass the checks, and which is the only one with what checksum |
| `BiosSums.TableBytes` | bochs/bios/biossums.c:130-196 | the two passes before leave the first two of the three bytes of a PCMP header that must be zero, and if these are zero clear the third where a header of theirs has its checksum |
| `BiosSums.NeverSpoiled` | bochs/bios/biossums.c:130-196 | an image all of whose headers pass the checks is never given up |
| `BiosSums.Rescued` | bochs/bios/biossums.c:130-196 | an image with a header that would be refused, and is not |
| `BiosSums.Pass` | bochs/bios/biossums.c:130-150 | gives up exactly when a header fails its checks; else sets the checksum of the only header, if there is one |
| `BiosSums.SetImageChecksum` | bochs/bios/biossums.c:288-311 | the image adds up to zero and only its last byte has changed |
| `BiosSums.FixImage` | bochs/bios/biossums.c:130-255 | gives up exactly when, in the input image, a header is out of bounds or a PCMP header has one of its three table bytes set, except the third where a sole PCI or MP header has its checksum; else the image and every singly found header not written into by a later kind add up to zero, all headers are as before, and only the checksum bytes of sole headers and the last byte may have changed |

## Left out

- Conversion between ticks and micro- or nanoseconds (floating point): timers are given in ticks, and the microsecond clock is a parameter.
- The slots' `this_ptr`, `id` and `param` fields, `activate_timer` with a stored period, save and restore, reset and exit.
- `isa_bus_delay` and other ticks inside a callback.
- `SchedulerEquivalence.SameTraceIffNoClash`: after a take-over whole traces are compared only if both schedulers get to the end of the run without an illegal call; for the others `FirstTakeOver` has the point where they part.
- The debugger break and the `setjmp` re-entry of the multiprocessor loop.
- The singly linked `QSLIST` family, the `FOREACH_SAFE` loops and the RCU insertion: the same links with easier claims.
- `PacketTransfer.AtaCmdPacket`: pieces of an odd size, or beyond the byte count limit that the BIOS programs, are not covered; port polling is left out, and memory above one megabyte is taken to be there (address line 20 on).
- `DiskGeometry.AddressRecovered`: for logical disks of at most 2^32 sectors, which the 32-bit computation needs.
- `AtaRegisters.Port.LoadBlock`: cylinder/head/sector commands and the data phase are left out.
- `GeneratedLoop.RunTranslated`: signed overflow of the accumulator (undefined in C) is not modelled; numbers are unbounded. A program that points outside the array is given no meaning, even where it does not use the pointer.
- Writing, compiling and loading the generated C file; its two operands of a move are read left to right.
- `BiosSums.FixImage`: nothing is said about the sum of a header that a later kind's checksum lies in, or that is shorter than its own checksum field; file reading, padding and writing are left out.
- The rest of `rombios.c`: assembly, floppy, mouse, PCI BIOS, clock, printing.
- Configuration, plug-ins, logging, threads and the processor loop: mostly calls into code around them.
