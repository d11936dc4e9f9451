# A verified model of the TR6260 firmware core

TR6260 is a Wi-Fi system on chip. Most of its firmware drives registers; this project models the parts that
hold algorithms over unbounded state, with the hardware replaced by abstract device state, and proves what
they guarantee. `dafny verify dfyconfig.toml` checks everything.

| files | component |
|---|---|
| `Calendar`, `PackedDate`, `DateArithmetic`, `Forecast` | the calendar of `drivers/hal_rtc.c`, measured against Gregorian day numbers |
| `TimerRing`, `TimerService` | its alarm timers: a circular doubly linked list, one hardware alarm, the interrupt |
| `Sha2`, `Sha2Constants`, `Sha2Context`, `Sha2Family` | the streaming hash of `drivers/hal_sha2.c`, against FIPS 180-2, with its constants derived from primes |
| `SysBuf`, `BufferPool`, `BufferQueue`, `BufferSystem` | packet buffers: pool, chains, queues and who owns what |
| `Sdio`, `SdioDma`, `SdioCredit` | the SDIO host interface as a state machine driven by the host |
| `SpiFlash` | the NOR flash driver over a device with write-enable and busy bits |
| `UartFrame`, `UartCalls`, `UartRing` | the framed byte protocol of `drivers/uart_adapter.c`, calls on a stream in pieces, and the receive ring of `drivers/hal_uart.c` under them |
| `Words`, `WordNumbers` | fixed-width integers; machine words as numbers |

Objects that the firmware updates in place are classes; loops are loops with invariants; each method is proved
against a specification function or an invariant, and the theorems are about those. Clocks, the host, the flash
device's timing and the choice of timers and packets in a run are arbitrary.

## Main results

* **The timer interrupt** terminates whenever the periodic countdowns that are due outlast the lag of today; it fires
  each timer that is due exactly once and in order, frees the one-shot ones, moves each periodic one to its next target,
  leaves every other timer alone, and leaves nothing due (`TimerService.TimerService.Isr`). The measure is the number of
  due timers. A due countdown that lags keeps it going, for any number of turns, as long as the clock has moved less
  since the reading than the lag of the day exceeds the countdown (`LaggingTurns`).
* **Every run** of create, start, stop, suspend, resume, delete, interrupt (also between two of its turns) and passing
  time keeps the list circular and sorted, exactly the linked timers ready or running, exactly the head running, and the
  alarm register on the code of the head's target; that code is the target's time of day, to half a tick of 1/32768
  second, exactly when its milliseconds are below 1000, which runs preserve (`TimerService.TimerService.Run`,
  `AlarmDecodes`, `PunctualAlarm`). A daily alarm that has passed moves to the next day that has its time of day, a
  monthly one to the same day of the following month (`Forecast.DailyIsNext`, `MonthlyTarget`, `MonthlyIsNext`).
* **Every way of cutting a message** into updates gives the FIPS 180-2 digest of the whole, for messages below
  2^32 bits, with either form of the compression loop (`Sha2Context.HashPieces`). Every function in the rounds is the
  one of the standard (`Sha2Family.Fips256`, `Fips512`, `FipsAdd256`, `FipsAdd512`), and every constant of the tables is what the standard says it
  is: the first bits of the fraction of a cube or square root of one of the first 80 primes (`Sha2Constants`).
* **Every run** of allocation, freeing, pushing and popping leaves each buffer in exactly one place, although free
  list and queues share one link field, and every queue gives out its packets in the order in which it got them
  (`BufferSystem.System.Run`, `OnePlace`, `Conservation`).
* **Every SDIO run** separates two indications by a withdrawal, loses no packet, keeps announced lengths, and never
  rests in the idle state with a packet that the host does not know of. What each event signals to the host is a
  function of the state and the event (`Sdio.Driver.RunEvent`, `AnyRun`). As long as
  INFO does not start in the middle of a packet, hardware queues match the state, and every packet discarded or handed
  over had exactly its length plus 8 bytes requested, modulo 2^32.
* **Every run of flash calls** leaves what its calls do one after the other, less pages and sectors given to a busy
  device; none is lost as long as no call has failed. Results, bytes done and time taken are a function of when the
  device takes a write-enable and ends an operation (`SpiFlash.Device.Write`, `Erase`); on a device that does both before
  the driver gives up, every call on whole sectors succeeds, and erase, write, read back returns the data and touches
  nothing else (`Store`, `Run`). A failed write is an exact prefix.
* **A stream of frames** behind noise may reach the calls in any pieces. Every frame is accepted when it has arrived,
  in order, if and only if no call cuts one: a window that holds its first frame has only noise behind that frame, and a
  window that does not yet hold it is no candidate (`UartCalls.EveryFrame`). Where frames have no head byte inside and
  stale memory completes no candidate, the payloads come back in full under the same condition and no other
  (`EveryPayload`); on the ring this holds up to its end (`UartRing.RxRing.ServeStream`).

## Where the code does not do what is expected of it

Each is kept as the code has it. Members named in brackets show it, on a concrete input where the text gives one;
where none is named, the exact condition stands in the contract of the routine's own row below.

* Releasing received bytes drops the whole window, whatever count it is called with: `hal_uart_get_rx_data_end`
  (`drivers/hal_uart.c:935-945`) has no parameter. Of two frames in one window the second is lost
  (`UartRing.TwoFrames`), and a frame with a wrong checksum takes the rest of the window with it. The count passed is
  right as long as fewer than 256 bytes were skipped (`UartFrame.StreamRoundTrip`, `LongNoise`), but unused.
* A call in the middle of a frame loses that frame if it returns the one before: of the frames `AA 02 01 02 05 55` and
  `AA 02 03 04 09 55`, a call after nine bytes returns the first, and the second is never returned, although no window
  holds two frames (`UartRing.CutByCall`).
* A frame that lies across the end of the receive ring is never returned: the window ends there, and bytes that arrive
  later stay out of sight until the ring overflows (`UartRing.RxRing.Stall`, `CutFrame`). The receiver reads the
  tail where the length byte says even if that byte has not arrived.
* The flash driver takes a set write-enable latch for its own although the device may still be at work on an earlier
  command. After a write that timed out, the next one can return 0 with its first page not programmed
  (`SpiFlash.LostPage`); likewise for sectors.
* The alarm register is wrong for targets with a millisecond field of 1000 or more, which `rtc_timer_create` accepts:
  the ticks run into the seconds (`TimerService.AlarmTooLate`).
* Countdowns use a four-year cycle, intervals the Gregorian calendar. They agree exactly outside the span of a
  fourth year that is not leap. At noon on 5 March 2100 an hour's countdown aims into the past
  (`DateArithmetic.CountdownInThePast`), and an interrupt that finds such a periodic timer due does not end before the
  clock has moved on by what the lag exceeds the countdown.
* `leapyear` sees 16 bits of the year, so the calendar repeats every 65536 years and parts from the Gregorian one in
  65636 (`Calendar.NotGregorianLater`).
* For a monthly alarm in the current month, day and hour are packed in each other's place
  (`drivers/hal_rtc.c:1393`, `Forecast.MonthlySwapped`).
* `rtc_timer_suspend` overwrites the status before it tests for a running countdown, so the time left is never saved
  although the comment in front of it says so. Stop, suspend, resume and delete do nothing while no timer is linked.
* `rtc_days_interval` is right exactly when the target's year is not earlier. The weekday formula is wrong in January
  and February of year 0 only.
* The hash writes only the low 32 bits of the bit length (`Sha2Context.PaddingExact`), and an update whose length
  together with the buffered bytes reaches 2^32 is lost (`Sha2Context.Context.Update`).
* `sys_buf_len_calc_using_hif_len` adds the header in 16 bits and rewrites other lengths than the allocation chose
  exactly for host lengths from 65528 on. A receive request of 65544 bytes or more runs out of fragments, and one of
  more than six fragments writes its descriptors into the table for transmission; the host can ask for both
  (`SdioDma.LongRequests`, `RxRoom`). For a request of fewer than 8 bytes the length wraps, and the pool is too small
  (`ShortRequest`).
* On the completion of a reception the SDIO driver tests the restart flag of the other direction
  (`drivers/hal_sdio.c:752`).

## Model

| member | source | states |
|---|---|---|
| `Calendar.YearStep` | drivers/hal_rtc.c:466-475 | the year lengths are the steps of a closed-form day count, for every year |
| `Calendar.GregorianBelow` | drivers/hal_rtc.c:18-29 | that count is the proleptic Gregorian one up to 1 January 65536 |
| `Calendar.NotGregorianLater` | drivers/hal_rtc.c:18-29 | the 16-bit leap rule first parts from the Gregorian one in 65636 |
| `Calendar.CumulativeMonths` | drivers/hal_rtc.c:478-488 | summed month lengths are the cumulative tables that the driver spells out separately |
| `Calendar.DayNumberOrder` | drivers/hal_rtc.c:490-523 | day numbers order valid dates exactly as year, month, day do, and determine them |
| `Calendar.NextDayIsNext` | drivers/hal_rtc.c:982-1006 | the next-day routine moves exactly one Gregorian day forward, to a valid date |
| `Calendar.SystemDate.constructor` | drivers/hal_rtc.c:338-352 | the system date starts at 1 January 1970, a valid date |
| `Calendar.SystemDate.UpdateDays` | drivers/hal_rtc.c:79-104 | the day interrupt gives the same date as the other next-day routine; it is one day later except from 31 December 65535, where the 16-bit year wraps |
| `Calendar.DaysOfMonth` | drivers/hal_rtc.c:79-104 | the leap-February lookup of the day interrupt agrees with the month tables |
| `Calendar.DaysInterval` | drivers/hal_rtc.c:490-523 | the month and year loops compute the difference of day numbers modulo 2^32 for years in order, and its one-year remainder otherwise, for all 23-bit years |
| `Calendar.IntervalExact` | drivers/hal_rtc.c:490-523 | the result is that difference if and only if the target's year is not earlier |
| `Calendar.IntervalAdditive` | drivers/hal_rtc.c:490-523 | intervals add up over an intermediate date |
| `Calendar.WeekdayExact` | drivers/hal_rtc.c:437-453 | the formula names the day counted from Thursday 1 January 1970, if and only if the date is not in January or February of year 0 |
| `Calendar.WeekdaySuccessor` | drivers/hal_rtc.c:437-453 | the weekday advances by one modulo 7 from every date to the next, over month, leap and year ends, if and only if the date is not 29 February of year 0 |
| `Calendar.WeekdayAnchor` | drivers/hal_rtc.c:437-453 | 1 January 1970 is named Thursday |
| `Calendar.WeekdayNames` | drivers/hal_rtc.c:14 | the name of each of the seven indices |
| `PackedDate.OrDisjoint` | drivers/hal_rtc.c:424-425 | or-ing a field below a shifted number is addition |
| `PackedDate.OrSplit` | drivers/hal_rtc.c:424-425 | the high and the low bits of an or are the ors of the high and of the low bits |
| `PackedDate.PackIsPositional` | drivers/hal_rtc.c:424-425 | packing in-range fields is positional notation in 64 bits |
| `PackedDate.UnpackPack` | drivers/hal_rtc.c:426-432 | unpacking recovers every field |
| `PackedDate.PackUnpack` | drivers/hal_rtc.c:426-432 | every 64-bit number is the packing of its own fields |
| `PackedDate.PackOrder` | drivers/hal_rtc.c:433 | integer comparison of packed dates is field-by-field comparison |
| `PackedDate.PackChronological` | drivers/hal_rtc.c:433 | for valid times it is comparison of instants in milliseconds |
| `DateArithmetic.YearDaysToDays` | drivers/hal_rtc.c:641-673 | the loop computes the four-year-cycle count with Gregorian month lengths |
| `DateArithmetic.FindMonth` | drivers/hal_rtc.c:550-624 | the month search finds the month whose cumulative range holds the day |
| `DateArithmetic.DaysToYearDays` | drivers/hal_rtc.c:550-624 | for a positive count the result is a date of the cycle calendar with that number; for zero the arguments keep their values |
| `DateArithmetic.CycleOrder` | drivers/hal_rtc.c:550-624 | the number orders and determines dates of the cycle calendar, so that result is the only one |
| `DateArithmetic.CycleDaysLag` | drivers/hal_rtc.c:641-673 | the count falls one short exactly after February of a fourth year that is not leap |
| `DateArithmetic.DateRoundTrip` | drivers/hal_rtc.c:550-673 | date to days to date is the identity if and only if the date does not lag |
| `DateArithmetic.DaysRoundTrip` | drivers/hal_rtc.c:550-673 | days to date to days is the identity under the same condition |
| `DateArithmetic.DateAdd` | drivers/hal_rtc.c:687-732 | for all operands, the packed total of both and the millisecond carry, with the days modulo 2^32 and the year modulo 2^23; the true sum whenever it fits |
| `DateArithmetic.SumToTheSecond` | drivers/hal_rtc.c:687-732 | the seconds of the sum are those of both operands in milliseconds, rounded down |
| `DateArithmetic.CountdownIsLater` | drivers/hal_rtc.c:687-732 | a countdown ends strictly after now if and only if it is longer than the lag of today |
| `DateArithmetic.CountdownIsAfter` | drivers/hal_rtc.c:687-732 | the exact condition for a countdown to end after an earlier moment of the day |
| `DateArithmetic.CountdownInThePast` | drivers/hal_rtc.c:687-732 | an hour's countdown at noon on 5 March 2100 does not aim into the future |
| `DateArithmetic.SecondsInterval` | drivers/hal_rtc.c:778-812 | both branches compute the interval of days and times of day modulo 2^32 |
| `DateArithmetic.SumInterval` | drivers/hal_rtc.c:687-812 | the seconds from now to now plus a countdown, with the days gained, for every now and countdown |
| `DateArithmetic.IntervalOfSum` | drivers/hal_rtc.c:687-812 | the measured interval to a sum is the countdown plus the carry if and only if the span avoids fourth years that are not leap |
| `Forecast.DailyIsLater` | drivers/hal_rtc.c:1355-1383 | a daily alarm moves strictly into the future and keeps its time of day |
| `Forecast.DailyIsNext` | drivers/hal_rtc.c:1355-1383 | no earlier day has that time of day after now |
| `Forecast.MonthlyIsLater` | drivers/hal_rtc.c:1385-1412 | a monthly alarm moves strictly into the future |
| `Forecast.NextMonthDays` | drivers/hal_rtc.c:1009-1033 | the month step moves to the same day of the next month, as many days later as the month has |
| `Forecast.MonthlyTarget` | drivers/hal_rtc.c:1385-1412 | the whole target: the swapped one in the current month, or, once that has passed, the same day, hour, minute, second and millisecond in the month after now's, as many days later as now's month has |
| `Forecast.MonthlyIsNext` | drivers/hal_rtc.c:1385-1412 | once the swapped target has passed, no date with that day of the month in a later month is earlier |
| `Forecast.MonthlyKeepsDayAndHour` | drivers/hal_rtc.c:1385-1412 | it keeps day and hour if and only if they are equal or the swapped target has passed; it keeps the milliseconds |
| `Forecast.MonthlySwapped` | drivers/hal_rtc.c:1393 | an alarm for the 5th at 10:00 becomes one for the 10th at 05:00 |
| `TimerRing.RtcTimer.constructor` | drivers/hal_rtc.c:1501-1525 | a created timer is inactive, aims at its date and is a ring of its own |
| `TimerRing.Rotate` | drivers/hal_rtc.c:1042-1071 | a ring can be read from any of its timers on |
| `TimerRing.InsertBefore` | drivers/hal_rtc.c:1056-1063 | the pointer surgery is insertion into the sequence, next and prev staying inverse |
| `TimerRing.Remove` | drivers/hal_rtc.c:1065-1071 | the pointer surgery is removal from the sequence, and the timer becomes a ring of its own |
| `TimerRing.InsertAtFacts` | drivers/hal_rtc.c:1056-1063 | insertion adds exactly that timer to the multiset |
| `TimerRing.RemoveAtFacts` | drivers/hal_rtc.c:1065-1071 | removal takes exactly that timer out of the multiset |
| `TimerService.AlarmDecodes` | drivers/hal_rtc.c:1205-1246 | the register holds the target's hour, minute and second, and its milliseconds to half a tick at 32768 Hz (one tick for none), if and only if they are below 1000 |
| `TimerService.AlarmRegister` | drivers/hal_rtc.c:1205-1246 | what the register holds for any target: the nearest count of ticks, ticks beyond a second or-ed into the seconds |
| `TimerService.AlarmTooLate` | drivers/hal_rtc.c:1205-1246 | for 1000 milliseconds and no seconds the register says one second |
| `TimerService.SortedInsert` | drivers/hal_rtc.c:1249-1308 | the place that the driver chooses keeps the list sorted |
| `TimerService.TimerService.InsertInside` | drivers/hal_rtc.c:1292-1306 | the search between head and tail always finds a place, the first that is not earlier |
| `TimerService.TimerService.ListInsert` | drivers/hal_rtc.c:1249-1308 | insertion refines sorted insertion into a sequence; which statuses change |
| `TimerService.TimerService.ListHeadRemove` | drivers/hal_rtc.c:1310-1329 | the list loses its head and stays a sorted ring |
| `TimerService.TimerService.SetAlarm` | drivers/hal_rtc.c:1205-1246 | the alarm encodes the head's target, or is off for an empty list |
| `TimerService.TimerService.AimDateForecast` | drivers/hal_rtc.c:1333-1417 | the new target of each kind of timer as the forecasts define it, that it is remembered, and that it lies strictly after now |
| `TimerService.TimerService.AimDateInit` | drivers/hal_rtc.c:1423-1465 | fails exactly for a one-shot alarm that has passed |
| `TimerService.TimerService.Create` | drivers/hal_rtc.c:1501-1525 | a new unlinked timer; the invariant holds |
| `TimerService.TimerService.Start` | drivers/hal_rtc.c:1530-1568 | fails exactly for a null, linked or passed one-shot timer; else where the timer aims and where it is linked; the invariant holds |
| `TimerService.TimerService.StopTimer` | drivers/hal_rtc.c:1573-1592 | the timer leaves the list and nothing else does; no effect for a null timer or an empty list |
| `TimerService.TimerService.SuspendTimer` | drivers/hal_rtc.c:1596-1625 | the same; the branch that would save the time left cannot be reached |
| `TimerService.TimerService.ResumeTimer` | drivers/hal_rtc.c:1628-1662 | a suspended timer is aimed and linked again unless the list is empty |
| `TimerService.TimerService.Delete` | drivers/hal_rtc.c:1725-1747 | the timer is unlinked and freed unless the list is empty |
| `TimerService.TimerService.Timeout` | drivers/hal_rtc.c:1468-1491 | a one-shot head is freed; a periodic one is aimed after now and inserted at its place |
| `TimerService.TimerService.Isr` | drivers/hal_rtc.c:1813-1853 | if every due periodic timer aims into the future today: fires exactly the due timers once and in order, frees one-shots, re-aims periodics, leaves all others and nothing due |
| `TimerService.TimerService.Drain` | drivers/hal_rtc.c:1834-1842 | its loop ends, with the number of timers still due as the measure |
| `TimerService.TimerService.FireNext` | drivers/hal_rtc.c:1834-1842 | one turn of the loop fires the next due timer and moves no other |
| `TimerService.TimerService.NextIsDue` | drivers/hal_rtc.c:1835 | while the head is due, some timer of the original list is still to fire |
| `TimerService.TimerService.LaggingTurns` | drivers/hal_rtc.c:1813-1842 | with a periodic countdown that was due at the reading, all turns are taken and a timer is due after them, unless the clock has moved on by more than the lag exceeds the countdown |
| `TimerService.TimerService.Interrupt` | drivers/hal_rtc.c:1813-1842 | any number of turns fires one timer each, and stops early only when nothing is due; what holds between turns |
| `TimerService.AdvancesOrLags` | drivers/hal_rtc.c:1333-1353 | a countdown aims into the future all day if and only if it does not lag at the start of a second |
| `TimerService.LaggingIsDue` | drivers/hal_rtc.c:1333-1353 | a lagging countdown that is re-armed is still due for the interrupt that read the clock earlier |
| `TimerService.TimerService.HealthyRearms` | drivers/hal_rtc.c:1813-1842 | on days without lag, with countdowns of at least a second, the interrupt always ends |
| `TimerService.DueIsPrefix` | drivers/hal_rtc.c:1822-1842 | in a sorted list the due timers are a prefix |
| `TimerService.TimerService.Run` | drivers/hal_rtc.c:1501-1842 | every run of calls, turns of interrupts and passing time keeps links, order, statuses and alarm; also the absence of lag, and milliseconds below 1000 |
| `TimerService.TimerService.PunctualAlarm` | drivers/hal_rtc.c:1205-1246 | with milliseconds below 1000 the register shows the head's time of day to half a tick |
| `Sha2.Expand` | drivers/hal_sha2.c:227-234 | the schedule loops fill the message schedule of the standard |
| `Sha2.RolledRounds` | drivers/hal_sha2.c:240-252 | the shifting loop computes the rounds of the standard |
| `Sha2.Exp` | drivers/hal_sha2.c:111-127 | a round that writes two renamed registers is a round of the standard on the renamed variables |
| `Sha2.Renaming` | drivers/hal_sha2.c:111-127 | each variable takes over its predecessor's register |
| `Sha2.UnrolledRounds` | drivers/hal_sha2.c:285-321 | the unrolled loop computes the same eight variables as the rolled one, for every block and chaining value |
| `Sha2.HashAppend` | drivers/hal_sha2.c:211-324 | hashing whole blocks composes over concatenation |
| `Sha2.Transf` | drivers/hal_sha2.c:211-324 | the chaining value moves over the given blocks of the message as the standard says |
| `Sha2Context.Context.constructor` | drivers/hal_sha2.c:326-342 | an empty context for the given initial value |
| `Sha2Context.Context.Update` | drivers/hal_sha2.c:344-376 | the bytes seen grow by exactly the message if buffered and new bytes do not wrap in 32 bits; else what is left of them |
| `Sha2Context.Context.Advance` | drivers/hal_sha2.c:366-375 | full buffer and whole blocks are hashed and counted |
| `Sha2Context.FinalBlocks` | drivers/hal_sha2.c:388-392 | the choice of one or two final blocks is the least padding of the standard |
| `Sha2Context.BitLength` | drivers/hal_sha2.c:391 | the wrapping byte count still gives the low 32 bits of the bit length |
| `Sha2Context.PaddingExact` | drivers/hal_sha2.c:388-396 | the padding is that of the standard if and only if the message is below 2^32 bits |
| `Sha2Context.Context.Final` | drivers/hal_sha2.c:378-414 | the digest of everything seen, for every message that of the driver's padding, below 2^32 bits that of the standard |
| `Sha2Context.HashPieces` | drivers/hal_sha2.c:344-414 | for every cutting of a message into updates, none of which wraps, the digest is that of the concatenation |
| `Sha2Constants.FirstPrimes` | drivers/hal_sha2.c:149-209 | the numbers under the roots are the first 80 primes: the first is 2, each is prime, and none lies between two neighbours |
| `Sha2Constants.PrimeTestExact` | drivers/hal_sha2.c:149-209 | below 529, trial division by the primes up to 19 decides primality |
| `Sha2Constants.RoundConstants256` | drivers/hal_sha2.c:149-165 | each round constant is the first 32 bits of the fraction of the cube root of its prime |
| `Sha2Constants.RoundConstants512` | drivers/hal_sha2.c:167-209 | each is the first 64 bits of that fraction |
| `Sha2Constants.Initial256` | drivers/hal_sha2.c:133-135 | the initial value is the first 32 bits of the fractions of the square roots of the first eight primes |
| `Sha2Constants.Initial512` | drivers/hal_sha2.c:143-147 | the first 64 bits of these fractions |
| `Sha2Constants.Initial384` | drivers/hal_sha2.c:137-141 | the first 64 bits for the ninth to the sixteenth prime |
| `Sha2Constants.Initial224` | drivers/hal_sha2.c:129-131 | the low halves of the words for SHA-384 |
| `Sha2Context.BigEndianDigits` | drivers/hal_sha2.c:57-63 | the length field holds the digits of the number in base 256, the first counting most |
| `Sha2Family.Fips256` | drivers/hal_sha2.c:41-65 | every slot of the 32-bit suite against the standard, written out: rotations, choice, majority, word addition, constants, rounds, byte order |
| `Sha2Family.Fips512` | drivers/hal_sha2.c:41-97 | every slot of the 64-bit suite likewise |
| `Sha2Family.FipsAdd256` | drivers/hal_sha2.c:240-252 | addition in the 32-bit suite is that of numbers modulo 2^32 |
| `Sha2Family.FipsAdd512` | drivers/hal_sha2.c:452-464 | addition in the 64-bit suite is that of numbers modulo 2^64 |
| `WordNumbers.AddIsModular32` | drivers/hal_sha2.c:240-252 | word addition is addition modulo 2^32 of the numbers that the words are in binary |
| `WordNumbers.AddIsModular64` | drivers/hal_sha2.c:452-464 | the same modulo 2^64 |
| `WordNumbers.EveryWord32` | drivers/hal_sha2.c:240-252 | every 32-bit word is a number below 2^32 in binary |
| `WordNumbers.EveryWord64` | drivers/hal_sha2.c:452-464 | every 64-bit word is a number below 2^64 in binary |
| `Sha2Family.FipsPack256` | drivers/hal_sha2.c:65-71 | four bytes are read as a word with the first byte highest |
| `Sha2Family.FipsPack512` | drivers/hal_sha2.c:85-97 | eight bytes likewise |
| `Sha2Family.ChChooses32` | drivers/hal_sha2.c:44 | the choice takes the bits of y where x has ones and those of z elsewhere |
| `Sha2Family.MajIsMajority32` | drivers/hal_sha2.c:45 | a bit is set exactly if two of the three have it |
| `Sha2Family.Sigma256` | drivers/hal_sha2.c:41-50 | the 32-bit macros are the rotations of the standard |
| `Sha2Family.Sigma512` | drivers/hal_sha2.c:52-55 | the 64-bit macros are the rotations of the standard |
| `Sha2Family.PackUnpack32` | drivers/hal_sha2.c:57-71 | packing the bytes of a 32-bit word gives the word |
| `Sha2Family.PackUnpack64` | drivers/hal_sha2.c:73-97 | packing the bytes of a 64-bit word gives the word |
| `Sha2Family.Sha256` | drivers/hal_sha2.c:416-424 | SHA-256 of the message: the first words of the hash of its padding under the suite and initial value above, below 2^32 bits |
| `Sha2Family.Sha512` | drivers/hal_sha2.c:612-620 | SHA-512 of the message: the first words of the hash of its padding under the suite and initial value above, below 2^32 bits |
| `Sha2Family.Sha384` | drivers/hal_sha2.c:712-720 | SHA-384 of the message: the first words of the hash of its padding under the suite and initial value above, below 2^32 bits |
| `Sha2Family.Sha224` | drivers/hal_sha2.c:813-821 | SHA-224 of the message: the first words of the hash of its padding under the suite and initial value above, below 2^32 bits |
| `BufferPool.Pool.constructor` | system/system_memory_manager.c:47-81 | all buffers are on the free list, in address order |
| `BufferPool.Pool.Alloc` | system/system_memory_manager.c:93-125 | the first free buffer, unlinked, or none |
| `BufferPool.Pool.Free` | system/system_memory_manager.c:135-192 | every fragment of the packet is on the free list again, which stays acyclic with `avail` entries |
| `BufferPool.Pool.AllocChain` | system/system_memory_manager.c:278-320 | fails exactly when all free buffers together are too small, and then all are free again; else the shortest chain from the front of the free list, every fragment but the last filled to the end of its buffer, with room for exactly header and host length |
| `BufferPool.PayloadIsTotal` | system/system_memory_manager.c:278-320 | payload lengths of a packet add up to header plus host length |
| `BufferPool.Pool.RecalcLengths` | system/system_memory_manager.c:322-354 | recomputing gives the lengths of the allocation if and only if length and header fit 16 bits |
| `BufferPool.Pool.WriteLengths` | system/system_memory_manager.c:322-354 | the lengths that the recomputation writes, fragment by fragment, and how many fragments it reaches |
| `BufferQueue.Queue.constructor` | system/util_sysbuf_queue.c:3-8 | an empty queue |
| `BufferQueue.Queue.Push` | system/util_sysbuf_queue.c:10-27 | refines appending to a sequence, whatever a stale tail points at |
| `BufferQueue.Queue.Pop` | system/util_sysbuf_queue.c:29-45 | refines taking the first of a sequence |
| `BufferQueue.Queue.Peek` | system/util_sysbuf_queue.c:47-61 | the first packet, or none |
| `BufferQueue.Queue.Count` | system/util_sysbuf_queue.c:63-72 | the length of the sequence |
| `BufferSystem.SharedAlloc` | system/system_memory_manager.c:278-320 | moving a chain from the free list to a packet keeps every buffer in one place |
| `BufferSystem.SharedFree` | system/system_memory_manager.c:135-192 | moving a packet back to the free list does too |
| `BufferSystem.System.AllocPacket` | system/system_memory_manager.c:278-320 | a new packet held by the client; queues and other packets are undisturbed |
| `BufferSystem.System.FreePacket` | system/system_memory_manager.c:135-192 | the packet is gone; queues and other packets are undisturbed |
| `BufferSystem.System.Push` | system/util_sysbuf_queue.c:10-27 | a held packet goes to the end of one queue; all other lists are undisturbed |
| `BufferSystem.System.Pop` | system/util_sysbuf_queue.c:29-45 | the first packet of a queue goes to the client; all other lists are undisturbed |
| `BufferSystem.System.OnePlace` | system/system_memory_manager.c:93-192 | every buffer is free or in exactly one packet, and a packet in one queue at most |
| `BufferSystem.System.Conservation` | system/system_memory_manager.c:93-192 | free buffers and buffers in use add up to the pool |
| `BufferSystem.System.Run` | system/system_memory_manager.c:47-192 | every run of allocations, frees, pushes and pops keeps ownership, free list, queues and chains; what went into a queue is, in order, what came out of it and what it still holds |
| `BufferSystem.OneMoreAnswer` | system/util_sysbuf_queue.c:10-45 | each push and each pop keeps the order of every queue |
| `Sdio.ClearedBetween` | drivers/hal_sdio.c:796-861 | in an orderly log a withdrawal lies between any two indications |
| `Sdio.Driver.constructor` | drivers/hal_sdio.c:146-170 | the idle driver, with nothing queued or announced |
| `Sdio.Driver.ToIdle` | drivers/hal_sdio.c:805-834 | exactly what is signalled: nothing if an indication is pending or a length announced, else the first packet's length plus 8, else that a report is due; which flags this clears |
| `Sdio.IdleIsTold` | drivers/hal_sdio.c:805-834 | so that with a packet waiting an indication is pending, unless a length is announced |
| `Sdio.FirstIndication` | drivers/hal_sdio.c:768-832 | a packet of 100 bytes in a fresh driver is indicated with 108 |
| `Sdio.RequestedLength` | drivers/hal_sdio.c:101-112 | in block mode 512 times the count; in byte mode the count, with 512 for zero |
| `Sdio.Driver.SendToHost` | drivers/hal_sdio.c:476-515 | a fresh transfer takes the first packet and announces the next; a restart only adds to the bytes |
| `Sdio.Driver.ReceiveFromHost` | drivers/hal_sdio.c:401-474 | a fresh transfer queues one packet; a restart only adds to the bytes |
| `Sdio.Driver.CompleteTx` | drivers/hal_sdio.c:694-726 | the packet is discarded exactly when the bytes match, else restarted once, else an error |
| `Sdio.Driver.CompleteRx` | drivers/hal_sdio.c:727-763 | the packet is handed over exactly when the bytes match; the other direction's flag decides on the error |
| `Sdio.Driver.RunEvent` | drivers/hal_sdio.c:633-794 | for every event exactly what is signalled to the host, when the driver becomes idle, which length is announced, and which report and request stay open; the next state, bytes requested, discarded and handed over; queues stay in step with the state if and only if INFO does not start in the middle of a packet; a packet is done exactly when its length plus 8 is the sum of the bytes requested for it modulo 2^32; conservation and announced lengths in every case |
| `Sdio.Driver.AnyRun` | drivers/hal_sdio.c:633-861 | whatever the host does, indications are orderly, announced lengths are kept, packets are neither lost nor repeated nor reordered, and in the idle state the host has been told of a packet that waits, by an indication or an announced length |
| `Sdio.Driver.PoliteRun` | drivers/hal_sdio.c:633-861 | with a polite host each hardware queue holds one packet in its own state and none otherwise, a restart flag implies its state, and every packet discarded or handed over had its length plus 8 requested, modulo 2^32, by the events since its start |
| `Sdio.ExactlyStep` | drivers/hal_sdio.c:633-768 | each event keeps packets that are done and the sums requested for them in step |
| `SdioDma.WriteDescriptors` | drivers/hal_sdio.c:436-468 | one descriptor per fragment, in chain order, and whether the fragments run out |
| `SdioDma.ReceiveFresh` | drivers/hal_sdio.c:401-474 | below 65544 bytes the descriptors cover exactly the request, with the lengths of the allocation if and only if the request has at least 8 bytes; more is needed if and only if it has 65544 bytes or more; they fit their table if and only if six fragments hold the allocation |
| `SdioDma.RequestFits` | drivers/hal_sdio.c:401-474 | the shortest packet for the truncated length holds the request exactly below that size |
| `SdioDma.RxRoom` | include/drivers/drv_sdio_posedge.h:111-113 | the table for reception has six entries; later ones fall on the table for transmission |
| `SdioDma.LongRequests` | drivers/hal_sdio.c:101-112 | arguments with which a host asks for a seventh fragment, and for more than 65543 bytes |
| `SdioDma.ShortRequest` | drivers/hal_sdio.c:101-112 | arguments for four and for no bytes, and that 64 buffers do not hold what is then allocated |
| `SdioDma.WriteTxDescriptors` | drivers/hal_sdio.c:523-545 | for a fresh transmission the descriptors cover exactly the request with as few fragments as possible, or the packet is too short |
| `SdioCredit.PutLane` | drivers/hal_sdio.c:207-218 | writing one packed counter leaves the other three |
| `SdioCredit.Credits.Update` | drivers/hal_sdio.c:190-232 | exactly one of eight counters moves, modulo 256; when a report becomes due |
| `SdioCredit.Tally` | drivers/hal_sdio.c:190-232 | over every sequence of calls each counter is the sum of its changes modulo 256, and a report is due if and only if the values exceed the threshold |
| `SpiFlash.PageProgramIsProgrammed` | drivers/hal_spiflash.c:1613-1696 | a program command inside one page does not wrap around |
| `SpiFlash.WriteAfterErase` | drivers/hal_spiflash.c:1836-1958 | programming erased sectors stores the data and changes nothing outside them |
| `SpiFlash.Device.Enable` | drivers/hal_spiflash.c:1858-1871 | succeeds exactly if one of the write-enable commands is taken in time, or a busy device still has its latch set; after how many readings |
| `SpiFlash.Device.WaitIdle` | drivers/hal_spiflash.c:1887-1904 | succeeds exactly if one of the readings finds the operation ended; after how many |
| `SpiFlash.Device.Write` | drivers/hal_spiflash.c:1836-1907 | result, bytes done and time as a function of the device's timing: -1 exactly if a page is not enabled or does not end in time; all commands have write-enable set, busy clear and one page if and only if the device is not busy at the first; then exactly the first n bytes are programmed, all if the result is 0; if it is busy, exactly the first page is missing |
| `SpiFlash.Device.Erase` | drivers/hal_spiflash.c:1910-1958 | -23 exactly for unaligned ranges; -1 exactly if a sector is not enabled, -2 exactly if it does not end in time, else 0; otherwise as for writing, by sectors |
| `SpiFlash.Device.ResponsiveSucceeds` | drivers/hal_spiflash.c:1855-1957 | on a device that takes a write-enable and ends every operation before the driver gives up, any number of pages or sectors are all done with result 0 |
| `SpiFlash.Device.ResponsiveMeans` | drivers/hal_spiflash.c:1855-1904 | what that asks of the device, reading by reading |
| `SpiFlash.NextReached` | drivers/hal_spiflash.c:1844-1853 | how far the first pages of a write reach, and that the last of them ends it |
| `SpiFlash.Device.ReadChunks` | drivers/hal_spiflash.c:1785-1797 | read commands of at most 512 bytes, one behind the other, return the range of an idle device |
| `SpiFlash.Device.Read` | drivers/hal_spiflash.c:1799-1832 | the mapped window below its end and commands beyond it, one behind the other, return the range of an idle device |
| `SpiFlash.Device.Store` | drivers/hal_spiflash.c:1785-1958 | erase, write and read back succeed on whole sectors of a responsive device, and return the data unless the first command meets a busy device; nothing outside the erased sectors changes in any case |
| `SpiFlash.Device.Run` | drivers/hal_spiflash.c:1785-1958 | every run of writes, erasures and reads leaves the effects of its calls less what met a busy device; all commands are proper if and only if nothing did; nothing did if the device was idle and no call failed; and on a responsive device none fails but erasures that are not of whole sectors |
| `SpiFlash.GivenProper` | drivers/hal_spiflash.c:1855-1904 | the commands of a call are all proper if and only if the first did not meet a busy device |
| `SpiFlash.LostPage` | drivers/hal_spiflash.c:1858-1871 | a write that times out, then one that returns 0 without programming its byte |
| `UartFrame.TxBuffer.FillData` | drivers/uart_adapter.c:92-109 | the payload bytes that fit are appended |
| `UartFrame.TxBuffer.FillChecksum` | drivers/uart_adapter.c:111-130 | the checksum of payload and length is appended if there is room |
| `UartFrame.TxBuffer.SendFrame` | drivers/uart_adapter.c:145-187 | appends the encoded frame if and only if it is long enough and fits; else the prefix that fits |
| `UartFrame.GetFullFrame` | drivers/uart_adapter.c:196-233 | finds the first head whose tail is where its length says |
| `UartFrame.IsChecksumValid` | drivers/uart_adapter.c:235-253 | accepts exactly the sender's checksum |
| `UartFrame.ChecksumDetects` | drivers/uart_adapter.c:111-130 | any single changed byte of a payload changes the checksum |
| `UartFrame.CorruptIsRejected` | drivers/uart_adapter.c:235-253 | the first candidate of a window, with one payload byte changed, is rejected |
| `UartFrame.ChecksumDecides` | drivers/uart_adapter.c:235-253 | a candidate is an encoded frame if and only if its checksum is right |
| `UartFrame.GetFrame` | drivers/uart_adapter.c:255-282 | accepts exactly encoded frames, returns length and payload, and the count that it passes on for release |
| `UartFrame.DecodeFrame` | drivers/uart_adapter.c:196-282 | a frame behind noise is accepted, and the count passed is that of noise and frame if and only if fewer than 256 bytes were skipped |
| `UartFrame.StreamRoundTrip` | drivers/uart_adapter.c:196-282 | on frames behind noise the counts passed are the lengths of noise and frame: calls that moved on by them would return every payload in order |
| `UartFrame.FramesRoundTrip` | drivers/uart_adapter.c:92-282 | the same for frames back to back, as the sender appends them |
| `UartFrame.LongNoise` | drivers/uart_adapter.c:196-233 | 256 noise bytes are skipped but not counted |
| `UartRing.RxRing.Put` | drivers/hal_uart.c:1113-1125 | a byte is appended to the pending ones, and a full ring is taken for empty |
| `UartRing.RxRing.RxLen` | drivers/hal_uart.c:919-934 | latches the window: up to the newest byte, the end of the ring or 3000 bytes |
| `UartRing.RxRing.RxDataEnd` | drivers/hal_uart.c:935-946 | drops the latched window, whatever count it is called with |
| `UartRing.RxRing.GetFrame` | drivers/uart_adapter.c:255-282 | the first candidate of the window decides; unless there is none, the whole window is dropped |
| `UartRing.RxRing.ServeOne` | drivers/uart_adapter.c:196-282 | behind noise of any length, the first frame of an arrival of whole frames is returned and the rest of it dropped |
| `UartRing.RxRing.Serve` | drivers/uart_adapter.c:255-282 | a stream in arbitrary pieces, each followed by a call, before the end of the ring: returned is what the call model says for these pieces and what lay in memory behind each window |
| `UartRing.RxRing.ServeStream` | drivers/uart_adapter.c:255-282 | for a whole stream: calls that cut no frame return every payload in order; only those do if frames have no head byte inside and stale memory completes no candidate |
| `UartCalls.EveryFrame` | drivers/uart_adapter.c:196-282 | for every stream, cutting into pieces and stale memory: each frame is accepted when it has arrived, if and only if no call cuts one |
| `UartCalls.UncutHits` | drivers/uart_adapter.c:196-282 | calls that cut no frame accept each at its place, from any point of the stream on |
| `UartCalls.HitsUncut` | drivers/uart_adapter.c:196-282 | the converse: a call that drops a head or finds a candidate too early loses a frame |
| `UartCalls.EveryPayload` | drivers/uart_adapter.c:196-282 | all payloads are returned if and only if no call cuts a frame, for frames without a head byte inside |
| `UartCalls.DropPlain` | drivers/uart_adapter.c:255-282 | what is left of such a stream when any bytes are dropped is again noise and frames, one less for every head dropped |
| `UartCalls.EqualFrames` | drivers/uart_adapter.c:255-282 | for frames of one size without noise, calls cut none if and only if no window is longer than a frame |
| `UartRing.CutByCall` | drivers/uart_adapter.c:255-282 | a call in the middle of the second frame returns the first and loses the second |
| `UartRing.RxRing.ServeWhole` | drivers/uart_adapter.c:196-282 | over any sequence of arrivals of whole frames before the end of the ring, the first payload of each is returned and no other |
| `UartRing.OneFrameEach` | drivers/uart_adapter.c:255-282 | of arrivals of whole frames every payload is returned if and only if no two frames arrive between two calls |
| `UartRing.ShortArrival` | drivers/uart_adapter.c:255-282 | an arrival of whole frames that is shorter than two of them holds at most one |
| `UartRing.EqualArrival` | drivers/uart_adapter.c:255-282 | an arrival of whole frames of one size without noise holds at most one if and only if it is no longer than a frame |
| `UartRing.TwoFrames` | drivers/uart_adapter.c:255-282 | of two frames in one window the second is lost |
| `UartRing.CutFrame` | drivers/uart_adapter.c:196-233 | a frame cut off at the end of the window is no candidate if and only if what lies behind does not happen to end it |
| `UartRing.RxRing.Stall` | drivers/hal_uart.c:919-946 | after such a window at the end of the ring no call returns a frame until the ring overflows |

## Left out

- Registers, pin multiplexing, clocks, delays and interrupt masking: abstract device state instead.
- `TimerService.TimerService.Create`: month fields of countdowns are at most 13, the last that the month table allows; monthly alarms have day and hour of at most 28, because the next-month routine sets no date for later days.
- `TimerService.TimerService.GetNowDate`: the clock may advance at every reading but does not pass midnight within one operation.
- `TimerService.TimerService.Isr`: callbacks only run; callbacks that change timers, and null callbacks, are not modelled. A countdown whose end does not fit a packed date counts as not aiming into the future.
- `rtc_timer_systime_change_pre` and `rtc_timer_systime_change_after`, which rewrite targets without sorting again; saving timers to flash; `rtc_get_time_of_day`; `rtc_ms_interval`; the unused weekly period.
- `BufferPool.Pool.constructor`: pools of 1 to 255 buffers, because of the 8-bit loop counter; free hooks and beacon callbacks are not modelled, nor is the refusal of a pool number out of range.
- `BufferSystem.System.Push`: clients push only packets that they hold, as the assertions of the queue demand.
- `Sdio.Driver.ReceiveFromHost`: restart offsets inside a chain and a failing allocation, where the driver stops at an assertion, are not modelled.
- `Sdio.Driver.SendToHost`: restart offsets inside a chain are not modelled; `SdioDma.WriteTxDescriptors` covers fresh transfers.
- `SdioDma.WriteDescriptors`: the branch that allocates more is represented by the flag `more`, and the table is not a piece of memory; `SdioDma.RxRoom` says which descriptors leave it.
- `UartFrame.GetFrame`: at least 258 readable bytes follow the new ones, because the receiver reads the tail unconditionally.
- `UartRing.RxRing.Serve`: stops at the first piece that does not fit before the end of the ring; what becomes of frames there is `UartRing.CutFrame` and `UartRing.RxRing.Stall`. Bytes arrive between calls, by interrupt; DMA and the `HISENSE` variants are not modelled.
- `UartRing.ShortArrival`: says nothing of frames that a call cuts; `UartCalls.EqualFrames` has the condition on lengths for these, and it asks for frames without a head byte inside.
- OTP areas, flash identification tables, quad mode and register-level copying of words.
- Other drivers, AES, ADC fitting, Wi-Fi and lwIP glue, command line, printing and the Python tools: plumbing, or dependent on parts that are not in the repository.
