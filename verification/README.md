# Recirculator firmware: a verified model

The firmware runs a hot-water recirculator on an LPC804. This project models the algorithms of its
services and of its pump controller, and proves what they keep over all inputs and all runs. Every
method below is written with the branches, constants and machine arithmetic of the C function it
models, and is proved against a specification; the lemmas are about those specifications.

| file | part of the firmware |
|---|---|
| `Crc16.dfy`, `ErrorDetection.dfy`, `Period.dfy` | the CRC-16 shift register of section 6.2.2 of the MODBUS over Serial Line Specification and Implementation Guide V1.02, bit by bit, and its algebra: linearity, bursts, parity, and the period 32767 |
| `Arithmetic.dfy` | machine integers and the laws of products and quotients |
| `Checksum.dfy`, `FrameErrors.dfy` | the table-driven checksum, the frame check, and which altered frames it rejects |
| `Calendar.dfy`, `Rtc.dfy` | timestamps to BCD calendar registers and back, the clock chip, resynchronisation |
| `Task.dfy`, `TaskTiming.dfy` | the cooperative scheduler, its latency and its drift |
| `MessageQueue.dfy`, `MessageManager.dfy` | the message ring with broadcast fan-out, and the boolean-register reply |
| `Registers.dfy` | the bit-packed boolean store and the integer store |
| `I2c.dfy` | the Modbus byte stream and the clock-divider search |
| `Thermistor.dfy` | millivolts to temperature |
| `Scheduling.dfy` | the weekly schedule test |
| `PumpControl.dfy`, `Recirculador.dfy` | button, errors, hysteresis and schedule as one machine, and the methods that implement it |

## How the model reads the source

- Time is a tick counter or a millisecond value passed in; pin levels, the order in which messages
  arrive during a service, the checksums a send stores, and how many bytes a bus transfer delivers
  are parameters, so every result holds for all of them. The message's record and its payload do not
  overlap.
- An `int` read as an unsigned 64-bit number is huge when negative, and C division truncates toward
  zero. The calendar decoder's 32-bit sum wraps around in the model, so its results cover the register
  contents that overflow it. Everywhere else a signed overflow is excluded: the pump's reference and
  hysteresis (`SumsFit`), the thermistor's chain (`Computable`, and `Interpolable` for the gap between
  two neighbouring entries of its table), and the products of the divider search.
- Division by zero and an index past an array are undefined in C, so the method requires that they do
  not happen: `Computable` again, `Decodable`, `Usable`, two bytes at least for the frame check, a
  register index within the array, a positive task frequency with a free slot. `FirmwareFits`,
  `FirmwareUsable`, `EncodeDecodable` and `FirmwareIsSchedulable` show that the firmware's own
  constants and data meet all of these.
- Enqueueing a message, advancing the ring, and switching the pump (register and pin together) are
  atomic steps. `message_Init` is called once, as the set-up does.
- The ring's pointers are indices into the slot array.
- A pause of the scheduler is any set of paused ticks, so the timing results hold for every pattern of
  pauses and count the paused ticks.

## What the proofs found

- The queue always keeps one message back. The slot served first is the default entry of the
  initialised ring, and from then on the newest accepted message waits at the head until another one
  is accepted (`MessageQueue.ServedOneBehind`).
- The conversion round trip and resynchronisation hold on [1704067200, 2147483647] and nowhere else
  (`Rtc.RoundTripExactly`, `Rtc.RecoveredIffSupported`). From 2038 to 2103 the chip's own time looks
  faulty and the clock falls back to 2024; from 2104 on it goes back eighty years, because the decoder
  drops the highest bit of the year's tens digit (`Rtc.Recovered`).
- The calendar is the civil one until the end of February 2100, which it takes for a leap year
  (`Calendar.CivilUntil2100`).
- One free change of the pump is not enough for the bound on chatter when the button's hold is on: the
  hold's end can stop the pump and the schedule start it again, at one temperature. One is enough
  exactly when the hold is off, and the number each state needs is exact (`PumpControl.FreeIsLeast`).
- A step later than the button's time limit ends the hold unless it finds an error: the error stops the
  pump, but the hold stays (`PumpControl.ButtonRunEnds`, `PumpControl.HoldOutlasts`).
- A pump register set from outside is not carried to the pin: the branch meant to do so reads an output
  pin, which always reads low. Register and pin agree again exactly when something else drives the pin
  (`PumpControl.OutsideWriteReachesPinIff`).
- Pauses of the scheduler cost more than their own ticks: at most n / (n - i) ticks each for the task in
  slot i of n (`TaskTiming.Drift`). How many unpaused ticks among m let a due task run is exact
  (`TaskTiming.GuaranteedIff`): more than one for each lower slot in every n ticks begun, as long as
  these last. So a number of unpaused ticks that is enough however long they take exists for the first
  slot only; every other one can starve for ever (`TaskTiming.EnoughAloneIffFirst`,
  `TaskTiming.PausesStarve`).
- The Modbus sender sums the header before it stores the checksum in the record the header is read
  from. What it sends is accepted exactly when the stored bytes leave the header as it was: always for
  headers of up to ten bytes, and the firmware's have one or six (`I2c.SentAcceptedIff`).
- Both sensors report their faults with the first sensor's codes (`src/app/recirculador.c:588-600`), so
  the error word does not tell them apart (`Recirculador.SensorsIndistinct`).
- An open sensor reads as -55 degrees (`Thermistor.OpenReading`). Voltages above it read as one below
  the offset, -56, which taken as hundredths of a degree is an ordinary temperature
  (`Thermistor.OutOfRangeReading`). The last entry of the resistance table is never compared with
  (`Thermistor.LastEntryUnused`).
- The schedule repeats every week except across the start of 2024, where the unsigned subtraction wraps
  (`Scheduling.RepeatsIff`).
- The comment at `src/services/scheduling/scheduling.c:75` says Monday is bit 6; the code, like the
  layout described at the head of that file, has Sunday at bit 6 and Monday at bit 5, and counts each
  midnight to the day that ends there (`Scheduling.MondayAndSunday`, `Scheduling.MidnightIsOld`).

## Model

| member | source | states |
|---|---|---|
| Checksum.TableCorrect | src/services/checksum/checksum.c:3-35 | each of the 256 entries is its index clocked eight times through the 0xA001 shift register |
| Checksum.ModbusCrc16 | src/services/checksum/checksum.c:55-67 | for every buffer and length the table-driven loop returns the shift register's checksum of those bytes |
| Checksum.ModbusStructCrc16 | src/services/checksum/checksum.c:37-53 | for every two buffers, empty ones included, the result is the checksum of their concatenation |
| Checksum.CheckCrc16 | src/services/checksum/checksum.c:69-76 | true exactly for frames whose last two bytes are the checksum of the rest, low byte first |
| Crc16.CrcIsRun | src/services/checksum/checksum.c:55-67 | the byte-wise checksum is the register fed bit by bit, least significant bit first |
| Crc16.RunLinear | src/services/checksum/checksum.c:55-67 | superposition: the register's response to the difference of two streams is the difference of its responses |
| FrameErrors.AcceptedIffResidueZero | src/services/checksum/checksum.c:69-76 | a frame of at least two bytes is accepted exactly when the checksum of the whole frame is zero |
| FrameErrors.SealedFrameAccepted | src/services/checksum/checksum.c:69-76 | any bytes followed by their checksum are accepted |
| FrameErrors.AlteredAcceptedIffSilent | src/services/checksum/checksum.c:69-76 | an altered frame is accepted exactly when the pattern of its bit errors, fed to an empty register, ends in zero |
| FrameErrors.BurstRejected | src/services/checksum/checksum.c:55-76 | any errors within sixteen consecutive bits of an accepted frame, at any bit offset and across data and checksum, are rejected |
| FrameErrors.NeighbouringBytesRejected | src/services/checksum/checksum.c:55-76 | changing one byte or two neighbouring bytes of an accepted frame of any length is rejected |
| FrameErrors.AcceptedFrameIsEven | src/services/checksum/checksum.c:3-76 | every accepted frame has an even number of one bits |
| FrameErrors.OddFlipsRejected | src/services/checksum/checksum.c:3-76 | any odd number of flipped bits is rejected |
| FrameErrors.TwoFlipsAcceptedIff | src/services/checksum/checksum.c:55-76 | two flipped bits go unnoticed exactly when they are a multiple of 32767 bits apart |
| FrameErrors.AcceptedFramesDifferInFourBits | src/services/checksum/checksum.c:55-76 | two different accepted frames of equal length up to 4095 bytes differ in at least four bits |
| FrameErrors.LeadingZerosAcceptedIff | src/services/checksum/checksum.c:55-76 | zero bytes put before an accepted frame go unnoticed exactly when there are a multiple of 32767 of them, because the register starts with all ones |
| FrameErrors.ShortestFrame | src/services/checksum/checksum.c:55-76 | a frame of two bytes is accepted exactly when both are 0xFF |
| FrameErrors.StatusRequest | src/app/recirculador.c:634-638 | the one-byte status request 0x11 is sealed with 0x7F 0x4C |
| ErrorDetection.BurstChangesState | src/services/checksum/checksum.c:55-67 | from every register state, streams that differ within sixteen consecutive bits end in different states |
| ErrorDetection.RunParity | src/services/checksum/checksum.c:55-67 | the register's parity is the parity of its seed and of all bits fed to it |
| Period.PeriodExact | src/services/checksum/checksum.c:3-35 | clocked without input, the trace of one error recurs after n clocks exactly when 32767 divides n |
| Period.SeedPeriodExact | src/services/checksum/checksum.c:55-67 | clocked without input, the initial state of all ones recurs after n clocks exactly when 32767 divides n |
| I2c.SendMasterModbus | src/drivers/peripheral/i2c/i2c.c:347-393 | the record then holds the checksum of header and payload at bytes 10 and 11; what reaches the wire is a prefix of the header as it then stands, payload and checksum low byte first, all of it exactly when the send reports success |
| I2c.SentAcceptedIff | src/drivers/peripheral/i2c/i2c.c:352-385 | for every record, header size and payload, the frame check accepts what is sent exactly when storing the checksum leaves the header's bytes alone, so always for headers of up to ten bytes, which are sent as they were summed |
| I2c.FrameAccepted | src/drivers/peripheral/i2c/i2c.c:352-353 | any header and payload followed by their checksum pass the frame check |
| I2c.SetBaudRate | src/drivers/peripheral/i2c/i2c.c:153-184 | the chosen pair has minimal remainder among all scl 2..9 and dividers up to 65536 that do not exceed the clock, and the largest scl of all such pairs; its divider is at least 1 from four times the baud rate on |
| Calendar.OrderIsTime | src/services/rtc/rtc.c:27 | among existing dates, field order is time order, and a moment has one stamp |
| Calendar.NextIsOneSecondLater | src/services/rtc/rtc.c:27 | the carry from second to year is one second of time and leads to an existing date |
| Calendar.CivilUntil2100 | src/services/rtc/rtc.c:86-137 | a date counts as many seconds as section 4.16 of POSIX.1-2017 gives it exactly until the end of February 2100 |
| Rtc.Civil | src/services/rtc/rtc.c:82-137 | every number of seconds since 2024 has an existing date and time of day that counts back to it |
| Rtc.TakeYears | src/services/rtc/rtc.c:86-104 | for every 32-bit day count the year loop ends, with the year the days fall in and the days left in that year, counted around the cycle of 256 years that the year's byte allows |
| Rtc.TakeMonths | src/services/rtc/rtc.c:105-133 | the month loop ends, with the month of that year and the days left in that month |
| Rtc.ConvertTimestampToTime | src/services/rtc/rtc.c:76-150 | for every 64-bit timestamp, the registers are the BCD digits of the one date and time of the timestamp, clamped to the start of 2024 and, from the year 2280 on, with the day count cut to 32 bits and around the 256-year cycle |
| Rtc.SecondsBeforeMonth | src/services/rtc/rtc.c:160-174 | the loop sums the lengths of the months before, February by leap year |
| Rtc.ConvertTimeToTimestamp | src/services/rtc/rtc.c:152-180 | the timestamp of the date shown, through a wrapping 32-bit sum, for every register content the source's table access allows |
| Rtc.RoundTrip | src/services/rtc/rtc.c:76-180 | encoding and decoding any timestamp in [1704067200, 2147483647] returns it |
| Rtc.RoundTripExactly | src/services/rtc/rtc.c:76-180 | among 32-bit timestamps the round trip holds exactly on that range |
| Rtc.PartialSumsFit | src/services/rtc/rtc.c:160-178 | on that range the terms the decoder adds are not negative and sum up to the timestamp, so no partial sum leaves 32 bits |
| Rtc.RegistersShowTime | src/services/rtc/rtc.c:82-148 | the registers show an existing date; one second later they show its carry successor; their order is the order of timestamps |
| Rtc.ClockService.SetValue | src/services/rtc/rtc.c:198-213 | the chip then holds the encoded fields with reserved bits cleared and zero configuration bytes |
| Rtc.ClockService.Resynchronize | src/services/rtc/rtc.c:182-196 | clock and chip afterwards, for every number of registers the bus read delivers and every chip content whose month register, once read, decodes to 1..13 |
| Rtc.OutcomeExactly | src/services/rtc/rtc.c:187-195 | the chip's time is taken exactly when its oscillator flag is clear and its registers add up, in 32 bits, to a supported timestamp; everything else sets the start of 2024 |
| Rtc.StoppedChipNotBelieved | src/services/rtc/rtc.c:189-194 | a chip whose oscillator flag is set and delivered is not believed, whatever else it holds |
| Rtc.PartialRead | src/services/rtc/rtc.c:184-195 | a read that stops after n registers takes over the seconds, the minutes, the time of day, the day of the month, the month and the year, in this order, and falls back to the start of 2024 past 2147483647 |
| Rtc.FlagsCleared | src/services/rtc/rtc.c:202-209 | setting the chip clears the stop bit, the oscillator flag, the reserved bits and the configuration registers |
| Rtc.WeekdaySpan | src/services/rtc/rtc.c:138-139 | the weekday register is 1 at the first midnight of a week, and d from just after midnight d - 1 to midnight d otherwise |
| Rtc.SetThenResynchronize | src/services/rtc/rtc.c:182-213 | setting the chip and reading it back at once recovers the timestamp set, whatever the clock showed before |
| Rtc.RunningChipResynchronizes | src/services/rtc/rtc.c:182-213 | reading back a chip that has carried its registers for k seconds since it was set to t gives t + k, up to 2147483647 |
| Rtc.SilentBusKeepsTime | src/services/rtc/rtc.c:182-196 | a read that delivers nothing recovers the clock's own timestamp |
| Rtc.RecoveredIffSupported | src/services/rtc/rtc.c:189-195 | the recovered timestamp is the original one exactly on [1704067200, 2147483647], and always lies in that range |
| Task.Scheduler.TickHandler | src/drivers/interrupt/interrupt.c:410-415 | one tick of time, then the paused or unpaused scheduler step |
| Task.Scheduler.RunScheduler | src/services/task/task.c:41-62 | paused, nothing changes; otherwise the lowest due slot, and no other, is dispatched and its execution time set to now |
| TaskTiming.TasksKept | src/services/task/task.c:51-57 | over any run every slot keeps its function, period, priority and argument |
| Task.Scheduler.InitSlots | src/services/task/task.c:72-77 | every slot is free |
| Task.Scheduler.NewTask | src/services/task/task.c:79-113 | the first free slot takes the task with period 1000000 / frequency, the first task clears the table, and the occupied slots stay a prefix |
| TaskTiming.SetUp | src/app/main.c:84-102 | whatever number of ticks pass between the calls, the set-up leaves the firmware's ten tasks with their periods in microseconds in the first ten slots |
| TaskTiming.Latency | src/services/task/task.c:41-62 | with n tasks of period at least n ticks and any pattern of pauses, a due task in slot i runs within every stretch of m ticks that has more than i (m / n) + min(i, m mod n) unpaused ones |
| TaskTiming.GuaranteedIff | src/services/task/task.c:41-62 | u unpaused ticks among m guarantee that run, for every table of the size and every pattern of pauses, exactly when u is above that number |
| TaskTiming.EnoughAloneIffFirst | src/services/task/task.c:41-62 | some number of unpaused ticks is enough however many ticks they are spread over exactly for the first slot |
| TaskTiming.UnpausedLatency | src/services/task/task.c:41-62 | so when none of the next i + 1 ticks is paused, it runs at one of them |
| TaskTiming.PausesStarve | src/services/task/task.c:41-62 | for every n, slot i < n, tick length and m, n tasks of n ticks each and a pattern of pauses let slot i, due from the start, not run at any of m ticks while exactly i (m / n) + min(i, m mod n) of them are unpaused |
| TaskTiming.Gap | src/services/task/task.c:51-57 | for any pattern of pauses, consecutive runs of slot i are at least its period apart, and less than its period plus i + 1 ticks plus n / (n - i) ticks for each paused tick between them; the next run comes within every longer stretch |
| TaskTiming.Drift | src/services/task/task.c:51-57 | in any stretch after a run, p of its ticks paused in any pattern, the number of runs N satisfies N periods <= elapsed < (N + 1)(period + i + 1 ticks) + p * n / (n - i) ticks, scaled by n - i |
| TaskTiming.UnpausedDrift | src/services/task/task.c:51-57 | without a pause, N periods <= elapsed < (N + 1)(period + i + 1 ticks) |
| TaskTiming.FirmwareIsSchedulable | src/app/main.c:84-102 | the firmware's ten tasks meet the condition of these results |
| TaskTiming.SoftwareClock | src/app/main.c:34-38 | the software clock never runs fast, whenever the scheduler is paused, and loses less than 3.5 ms per counted second and 1.25 ms per paused tick |
| MessageQueue.RunsOrderly | src/services/message_manager/message_manager.c:102-119 | over every sequence of enqueue and service steps, default entry and accepted messages are the served ones, the head and the waiting ones, in order, with at most 14 waiting |
| MessageQueue.EnqueuedOrderly | src/services/message_manager/message_manager.c:107-112 | a message is refused exactly when 14 are waiting |
| MessageQueue.ServedOneBehind | src/services/message_manager/message_manager.c:564-587 | first in first out, and the newest accepted message is never among the served ones |
| MessageQueue.ServiceInFull | src/services/message_manager/message_manager.c:564-587 | a service moves the head to the served ones and the oldest waiting message to the head, and accepts the first of the arrivals that fit into 14 with the head still held |
| MessageQueue.FirstArrivalsAccepted | src/services/message_manager/message_manager.c:107-116 | of any stretch of arrivals exactly the first ones that find room are accepted |
| MessageQueue.Drain | src/services/message_manager/message_manager.c:564-587 | k services without arrivals serve the head and the k - 1 oldest waiting messages |
| MessageManager.Manager.Init | src/services/message_manager/message_manager.c:74-83 | the ring is linked, empty, and holds the default entry at its head |
| MessageManager.Manager.New | src/services/message_manager/message_manager.c:102-119 | the walk along the links refines the abstract enqueue, with the source's three status codes |
| MessageManager.Manager.Advance | src/services/message_manager/message_manager.c:580-584 | the served slot holds the default entry again, the oldest waiting message becomes the head |
| MessageManager.Manager.Loop | src/services/message_manager/message_manager.c:564-587 | one round refines the abstract service with all arrivals during it; the slot in service is never overwritten, and a broadcast is sent once per slave in vector order |
| MessageManager.TakeBits | src/services/message_manager/message_manager.c:228-241 | the registers covered take the payload's bits, most significant first; success exactly when the claimed bytes cover them; the bits come from between byte count and checksum whatever count is claimed; the change flag is set exactly when some boolean changed |
| MessageManager.RegistersRead | src/services/message_manager/message_manager.c:228-241 | after a reply that claims enough bytes register k reads bit 7 - k mod 8 of payload byte k / 8, and no other boolean differs |
| MessageManager.ReplyHoldsRegisters | src/services/message_manager/message_manager.c:220-222 | the reply has as few payload bytes as hold the registers |
| MessageManager.GetBoolReg | src/services/message_manager/message_manager.c:213-242 | register RegAddr + k reads bit k of a sealed reply's payload, no other boolean changes, and the change flag is set exactly on a change; an unsealed or missing reply changes nothing |
| Registers.StoreBit | src/services/registers_manager/registers_manager.c:59-79 | changing one bit of one byte changes exactly the boolean at that index |
| Registers.BoolAt | src/services/registers_manager/registers_manager.c:59-66 | the boolean at index i is the bit 0x80 >> i mod 8 of byte i / 8 |
| Registers.AddressesInARow | include/board_defs.h:158-192 | the registers of each kind have their addresses in a row, with indices from 0, and other addresses have index -1 |
| Registers.RegisterFile.WriteBool | src/services/registers_manager/registers_manager.c:67-85 | the addressed boolean and no other takes the value; the change flag is set exactly when it differed; addresses outside the map change nothing |
| Registers.RegisterFile.WriteBoolVet | src/services/registers_manager/registers_manager.c:86-95 | a block that fits replaces exactly its stretch, another one changes nothing; the change flag is set exactly when some boolean changed |
| Registers.RegisterFile.ReadBool | src/services/registers_manager/registers_manager.c:221-229 | the boolean at the address, false outside the map |
| Registers.RegisterFile.ReadBoolVet | src/services/registers_manager/registers_manager.c:230-239 | the stretch of booleans from the address on, nothing when it does not fit |
| Registers.RegisterFile.WriteInt | src/services/registers_manager/registers_manager.c:125-135 | the addressed integer and no other takes the value, with its change flag |
| Thermistor.FindTemp | src/services/ntc_thermistor/ntc_thermistor.c:84-103 | the search returns the interpolated temperature of the resistance, or the marker below the offset for a negative one |
| Thermistor.TemperatureInRange | src/services/ntc_thermistor/ntc_thermistor.c:84-103 | readings lie between 100 offset and 100 max, for every strictly decreasing table |
| Thermistor.ExactAtEntries | src/services/ntc_thermistor/ntc_thermistor.c:91-92 | at each entry searched the reading is the entry's temperature |
| Thermistor.BetweenEntries | src/services/ntc_thermistor/ntc_thermistor.c:93-100 | between two entries it lies above the colder temperature and not above the warmer one |
| Thermistor.Interpolated | src/services/ntc_thermistor/ntc_thermistor.c:97-99 | between entries d ohms apart, the reading lies x hundredths below the warmer entry's, where x d <= 100 (resistance above that entry) < (x + 1) d |
| Thermistor.EndReadings | src/services/ntc_thermistor/ntc_thermistor.c:95-102 | beyond the entries searched the reading is 100 offset or 100 max |
| Thermistor.WarmerIsSmaller | src/services/ntc_thermistor/ntc_thermistor.c:84-103 | a larger resistance never reads warmer, for every strictly decreasing table |
| Thermistor.LastEntryUnused | src/services/ntc_thermistor/ntc_thermistor.c:88-89 | tables that agree on all entries but the one for the highest temperature read the same |
| Thermistor.ConvertMvToCelsius | src/services/ntc_thermistor/ntc_thermistor.c:111-132 | the three truncating divisions, in 32 bits, followed by the search |
| Thermistor.CircuitSolved | src/services/ntc_thermistor/ntc_thermistor.c:127-130 | the three results are the largest whole current, combined resistance and thermistor resistance that the circuit's equations allow |
| Thermistor.HigherVoltageNotWarmer | src/services/ntc_thermistor/ntc_thermistor.c:126-131 | higher millivolts never give a higher temperature, through all three divisions and the search |
| Thermistor.FirmwareUsable | src/services/ntc_thermistor/thermistor/NTC_10K_3380.h:8-27 | the entries searched in the firmware's table are strictly decreasing, cover its range, and are close enough to be interpolated in 32 bits |
| Thermistor.FirmwareRange | src/app/main.c:72-73 | the firmware's circuit is measurable exactly up to 1879 mV |
| Thermistor.FirmwareFits | src/app/main.c:72-73 | up to there no division by zero and no 32-bit overflow occurs |
| Thermistor.NominalReading | src/services/ntc_thermistor/thermistor/NTC_10K_3380.h:17 | ten kilo-ohms read as 25 degrees |
| Thermistor.OpenReading | src/services/ntc_thermistor/ntc_thermistor.c:126-131 | an open sensor stands at 1879 mV in the firmware's circuit, which reads as -55 degrees |
| Thermistor.OutOfRangeReading | src/services/ntc_thermistor/ntc_thermistor.c:86-87 | from 1880 to 2460 mV the firmware's reading is the marker -56 |
| Scheduling.PackedFields | src/services/scheduling/scheduling.c:51-53 | day mask, start and end come back out of a packed entry |
| Scheduling.MinuteOfDay | src/services/scheduling/scheduling.c:77-80 | the minute of the day counts 60 seconds each, and is that of the timestamp's own clock time |
| Scheduling.DaySpan | src/services/scheduling/scheduling.c:69-76 | a day's index covers exactly the span from just after a midnight up to and including the next |
| Scheduling.MidnightIsOld | src/services/scheduling/scheduling.c:73 | midnight has the day index of the second before it |
| Scheduling.MondayAndSunday | src/services/scheduling/scheduling.c:75 | the first Monday of 2024 has bit 5 and the Sunday after it bit 6 |
| Scheduling.WindowIsArc | src/services/scheduling/scheduling.c:104-112 | for times of day, the two-branch window test is the arc (minute - start) mod 1440 < (end - start) mod 1440 |
| Scheduling.SchedulingTest | src/services/scheduling/scheduling.c:90-116 | the loop finds an entry that covers the moment exactly when there is one |
| Scheduling.ScheduledIff | src/services/scheduling/scheduling.c:90-116 | the test holds exactly when some entry has the day's bit and its arc contains the minute |
| Scheduling.WeeklyPeriod | src/services/scheduling/scheduling.c:69-116 | the test repeats every 604800 seconds, unless the week spans the start of 2024 |
| Scheduling.RepeatsIff | src/services/scheduling/scheduling.c:69-76 | every schedule answers the same one week later exactly for the moments from 2024 on and those whose next week ends before it |
| Scheduling.DefaultEntry | include/board_defs.h:118 | the factory entry covers the seconds of the day from 06:00 to 20:00, on every day |
| PumpControl.NoChatter | src/app/recirculador.c:501-547 | over any error-free run with fixed reference and hysteresis h, any schedule and any start state, (changes - free changes)(2h + 2) <= total variation of the temperature, with one free change unless the button holds the pump |
| PumpControl.FreeIsLeast | src/app/recirculador.c:520-541 | c free changes are enough for every run from a state in which time runs forward exactly when c is at least that state's number, and one is enough exactly when the button's hold is off |
| PumpControl.BandAttained | src/app/recirculador.c:501-547 | from every state, at every reference and hysteresis, every number of further changes happens at exactly the price of the bound, in some run that begins no earlier than the last press and in which time runs forward |
| PumpControl.ButtonRunEnds | src/app/recirculador.c:488-548 | after a press that turns the pump on, at a step later than the time limit the pump is on only if the hold has ended and some step since found no error, an active schedule and a cold pipe; the hold outlasts that step only if it found an error |
| PumpControl.HoldOutlasts | src/app/recirculador.c:488-530 | over any run of steps the hold survives exactly when every step was an error or neither hot nor late |
| PumpControl.HoldLasts | src/app/recirculador.c:520-530 | in error-free steps that are not hot the hold lasts exactly as long as no step comes more than the time limit after the press |
| PumpControl.NegativeLimitHolds | src/app/recirculador.c:523-525 | a negative time limit never ends it |
| PumpControl.HoldKeepsPumpOn | src/app/recirculador.c:520-548 | while the hold lasts without errors the pump stays on |
| PumpControl.LastDecides | src/app/recirculador.c:501-547 | without the hold, the pump is on after any run exactly when the last step that started or stopped it started it, or there was none and it was on before; errors and heat stop, a cold pipe in schedule starts |
| PumpControl.PressTurnsOver | src/app/recirculador.c:133-150 | a press is accepted 100 ms after the last one if the pin is low, and then pump, pin and hold are on exactly when the hold was off |
| PumpControl.PressesAlternate | src/app/recirculador.c:142-150 | from rest, presses alone have pump, pin and hold on exactly after an odd number of accepted ones |
| PumpControl.PressesApart | src/app/recirculador.c:133-142 | in every run accepted presses are at least 100 ms apart |
| PumpControl.PinFollowsRegister | src/app/recirculador.c:31-34 | without outside writes the output pin follows the pump register |
| PumpControl.OutsideWriteReachesPinIff | src/app/recirculador.c:496-499 | after a register write from outside and any run of steps and presses, register and pin agree exactly when the value was the pin's own or some event drove the pin for its own reason: an accepted press, an error, a hot pipe, a cold one in schedule, or the end of the button's time; until then the pin does not move |
| Recirculador.Controller.constructor | src/app/main.c:54-57 | the pump starts off, its pin an output at high level, the button an input |
| Recirculador.Controller.ButtonInterrupt | src/app/recirculador.c:133-151 | the interrupt is the machine's press step, and touches no other boolean |
| Recirculador.Controller.ControlPump | src/app/recirculador.c:488-548 | the control code is the machine's control step on the chosen sensor's registers and the schedule, and touches no other boolean |
| Recirculador.SelectorDecides | src/app/recirculador.c:501-507 | with the selector register at 0 the second sensor's registers make no difference to the control, with any other value the first one's do not |
| Recirculador.SelectorChooses | src/app/recirculador.c:501-507 | the control goes by the chosen sensor's measurement, reference and hysteresis, the error word, the time limit and the schedule at the timestamp |
| Recirculador.ScheduleWord | src/services/scheduling/scheduling.c:95 | the schedule is the ten integer registers from index 41 on, read as unsigned words |
| Recirculador.Controller.SystemStep | src/app/recirculador.c:557-574 | the button register shows the pin, then the control step |
| Recirculador.Controller.ProcessErrors | src/app/recirculador.c:623-630 | the error register and no other takes the error word |
| Recirculador.ClearIffHealthy | src/app/recirculador.c:575-622 | the error word is zero exactly when both sensors are within all four of their limits |
| Recirculador.ErrorBits | src/app/recirculador.c:575-629 | for all registers, bit 0 of the word is set exactly when a sensor is too hot, bit 1 when one is too cold, bit 2 when one is shorted and bit 3 when one is open, electrical faults hiding the others |
| Recirculador.SensorsIndistinct | src/app/recirculador.c:575-630 | exchanging the two sensors' measurements and limits leaves the error word as it was |
| Recirculador.FaultStopsPump | src/app/recirculador.c:488-495 | with a sensor out of its limits, the control step after error processing leaves the pump off, register and pin |

## Left out

- Vendor SDK, board files, clock, watchdog, ADC, UART and flash: register access and ROM calls outside this model.
- I2C status polling: how far a transfer gets is a parameter.
- The weekday register: its value, 1 to 8, is stated, but it is no part of the round trip, and the chip's own range is 1 to 7.
- Weekly measurements, flow, current and averages (`rec_measure`, `rec_current_measure`): straight arithmetic.
- The rotation of change flags in `_rec_change` and the messages built from them: it would only add easy members.
- Reply handlers other than the boolean one, and the short registers: thin wrappers.
- The change flag of `reg_write_int_vet` and its loss in `reg_set_change_flag`: not part of this model.
- Task names and the delay functions of the scheduler: busy waiting on the tick counter.
- SetBaudRate: requires that 18 times the baud rate fits 32 bits, because the source's products wrap beyond that; the claim is about rates below 238 MHz.
- Resynchronize: requires a month register the decoder's table access is defined for, because the source reads past the table otherwise.
- GetBoolReg: requires at least one register, because the source's countdown never reaches zero otherwise.
