# Acionna, modelled and verified in Dafny

The repository is the firmware of a water pump and irrigation controller. This project models the parts of
it whose behaviour depends on long runs or on arithmetic over large ranges, and proves what they do:

- the 1-Wire ROM search, which enumerates the ids on a bus with three words of memory between calls;
- the Dallas CRC8 and CRC16, against schoolbook division of polynomials over GF(2);
- the calendar formulas behind the clock, against a calendar that counts day by day;
- the star-delta pump driver, with every contactor reading left to the environment;
- the valve sequencer with its delayed close, and the 16-bit output module behind it;
- irrigation mode, where the valve cycle follows the pump and must not close before it is off;
- the nightly schedule of the optimized mode;
- the air-intake detector;
- the WebSocket client (fragmentation, ping and pong deadlines) and the server's keep-alive engine.

Each component has a state machine made of pure functions, on which the properties of whole runs are proved
as lemmas, and, where the source has an object, a class whose methods change their fields as the source does
and are proved to make exactly the steps of that state machine.

| file | content |
|---|---|
| Options.dfy, Words.dfy | a value that may be missing; bits of bytes and 16-bit words |
| RomSearch.dfy, OneWire.dfy | the search as a function with its enumeration theorem; bus and driver objects |
| Gf2Division.dfy, Crc.dfy | division over GF(2); the two CRCs |
| Calendar.dfy, Clock.dfy | the formulas and the day-by-day calendar; Date_Time and Clockin |
| PumpControl.dfy, Pump.dfy | the pump as a state machine with its interlock; the pump object |
| ValveCycle.dfy, Valves.dfy | the course of a valve cycle; output module and sequencer objects |
| Irrigation.dfy, Controller.dfy | one second of irrigation mode; the main object with its pump, valves, pipes, start list and clock |
| NightSchedule.dfy, Schedule.dfy | the schedule as a state machine; the scheduler object at work on the pump |
| AirIntake.dfy | the detector |
| Fragmentation.dfy, PingPong.dfy, WebSocketClient.dfy | the send loop; the client task; the client object |
| KeepAlive.dfy | the keep-alive engine |

## What the proofs found

Several properties one would expect hold only under a condition. The lemmas named say when, as an
if-and-only-if or, where the finding is one input, as that input.

- **1-Wire.** A single device whose family byte is 0 makes every search fail, for all devices on the bus
  (`ZeroFamilyBlocks`); the enumeration works if and only if there is none (`EnumeratesIffNoZeroFamily`).
- **Calendar.** The setter treats every fourth year as a leap year. It shows the right date up to
  2100-02-28 and no further (`FormulaIsGregorianIff`); the getter uses the Gregorian rule for February but
  counts a leap day for every fourth year before, and is right from 2000 to the end of 2100
  (`GetterIsGregorianIff`). Setting and getting are inverse except before 2000 and from March to December
  2100 (`SetThenGetIff`, `GetThenSetIff`). In 12-hour mode an hour set as PM is read back twelve less,
  modulo 256 (`SetHour`).
- **Pump.** Direct starts of K2 and K3 have no interlock. Given while a star-delta start is in star, a direct
  start of K2 drives the pins of K2 and K3 high together (`DirectInStar`). A start of any type keeps the
  interlock if and only if a guard on pins and cached view holds before it (`ExternalStartSafeIff`): for the
  direct starts, that the opposite pin is low and, where contactors are looked at, the opposite contactor was
  off at the last reading; for those to star and to delta, that the view does not hide the opposite pin. It
  does hide it between the automatic change to delta, which returns before the view is refreshed, and the
  next update. `Interlock` is about all runs in which every start comes while its guard holds.
  A direct start looks at the cached view first: when that still shows the contactor on, it returns 0 without a
  reading, though the reading at its end may find the contactor off and stop the pump (`DirectIff`,
  `StaleViewStarts`).
- **Valves.** With the delayed close at most two valves are open if and only if every valve between the first
  and the last runs at least as long as the delay (`AtMostTwoIffDelayFits`): only one valve is remembered for
  closing, so a shorter one leaves its predecessor open to the end of the cycle, and so does a forced switch (`ForcedSwitch`).
- **Irrigation.** The pump stops before the valves close if and only if the timer is checked, the programmed
  total is ten seconds or more, and the seconds beyond whole minutes add up to at most ten and one more for
  each valve (`ValvesCloseLastIff`, `TimerComesFirstIff`). The timer counts those seconds, the valves run
  whole minutes only, and times computed from an amount of rain are not whole minutes; a total below ten
  wraps around 32 bits. A star-delta command given in the middle of a cycle sets the timer anew and is safe
  if and only if the cycle still takes longer than that (`RequestSafeIff`). Whatever the contactors do, a second
  with a reason to stop ends with all outputs low (`SecondStops`), unless the start list directly starts a motor
  that was idle in the same second (`StartsAfterStop`).
- **Night schedule.** A pump start can fall between red time and start time: when the motor is not idle in
  the very second of red time, a next start that was already planned in the window is not withdrawn
  (`TripAtRedTime`); a thermal relay closed for that one second is enough (`TripForOneSecond`). The window
  stays without a start, whatever the motor does in it, if and only if in the second of red time the motor is
  idle, or no start is planned in the window, or no cycle is left (`RedTimeQuietIff`). In runs where this
  holds every day there is no such start at all (`NoStartInRed`). The time planned next is not reduced to a time
  of day: the rest of the cycles is lost if and only if it is past midnight (`PlanLostIff`). With an idle motor
  and time enough before midnight every event is started exactly as often as it should be (`NightComplete`); a
  motor that is not idle at the start time uses up a cycle without a start (`StartsSpent`).
- **Air intake.** The count of equal readings is never reset. An increasing pressure is taken for stable at an
  equal reading if and only if ten have been seen in all, those of earlier activations included
  (`StableIff`); so nine of a first activation leave one to go in the second (`OldReadingsCount`).
- **WebSocket.** A send that did not fail put the message on the wire as RFC 6455 asks if and only if the
  transport took every chunk whole (`FragmentedIffTookAll`); after a partial write the rest is framed again.
  A send aborts if and only if the transport refuses its last frame, and returns that answer: 0 for a frame
  of which no byte was taken, the code an empty message succeeds with (`AbortedIff`, `ZeroWriteReturnsZero`).
  The client task leaves its loop before the server has closed, with its run flag still set, if and only if
  the first poll after the close frames says "not yet" (`LeavesEarlyIff`).
- **Keep-alive.** Clients that stand in the table before the last overdue one are forgotten when the sleep is
  computed (`MaxDelayIsLeast`). The engine oversleeps a client if and only if it is such a one, has less than
  a second left, and less than every client after the overdue one (`OversleepsIff`, `Oversleeps`); never by
  more than a second.

Assumptions that the theorems state: valve settings do not change during a cycle; irrigation runs start the
pump by star-delta only, on contactors that follow the pins at the first reading, with the thermal relay open
and a switch time above zero; the transport takes no more bytes than it is offered; the clock of the keep-alive
engine does not go back. Readings of contactors, thermal relay, pressure and clocks, answers of the transport
and, within the guards named above, commands are otherwise arbitrary.

## Model

| member | source | states |
|---|---|---|
| RomSearch.DescendIsLeast | components/protocols/onewire/onewire.cpp:238-290 | a search pass that takes 0 at every new fork ends at the least id on the bus that starts with the path walked so far |
| RomSearch.NoDiscrepancyMeansGreatest | components/protocols/onewire/onewire.cpp:295-299 | the discrepancy remembered is 0 exactly for the greatest id, so the last-device flag is set there and only there |
| RomSearch.NextIsSuccessor | components/protocols/onewire/onewire.cpp:251-276 | with the discrepancy of an id remembered, the next pass yields the least id above it |
| RomSearch.EnumeratesExactly | components/protocols/onewire/onewire.cpp:208-314 | from a reset state the calls return every id of any finite bus exactly once, in increasing order from bit 0 of byte 0, then FALSE once, and start over, for ever |
| RomSearch.ZeroFamilyBlocks | components/protocols/onewire/onewire.cpp:305-311 | with one device of family byte 0 on the bus every call from a reset state returns FALSE |
| RomSearch.EnumeratesIffNoZeroFamily | components/protocols/onewire/onewire.cpp:305-313 | every device is found by some call if and only if no device has family byte 0 |
| RomSearch.TargetSearchFinds | components/protocols/onewire/onewire.cpp:182-190 | the call after target_search finds a device of the family if and only if the bus has one and the family is not 0, and goes on from there |
| OneWire.Bus.Reset | components/protocols/onewire/onewire.cpp:226-232 | a presence pulse is seen exactly when a device is on the bus |
| OneWire.Bus.ReadBit | components/protocols/onewire/onewire.cpp:240-241 | a read slot carries the AND of the bits, or of their complements, of the devices still taking part |
| OneWire.Bus.WriteBit | components/protocols/onewire/onewire.cpp:276-277 | a write slot silences the devices whose bit differs |
| OneWire.Driver.ResetSearch | components/protocols/onewire/onewire.cpp:167-177 | forgets everything: ROM_NO zero, no discrepancy, no last device |
| OneWire.Driver.TargetSearch | components/protocols/onewire/onewire.cpp:182-190 | leaves the family byte followed by zeros and discrepancy 64 |
| OneWire.Driver.Choose | components/protocols/onewire/onewire.cpp:251-266 | at a fork: as last time before the discrepancy, 1 at it, 0 after it; remembers where 0 was taken |
| OneWire.Driver.SearchBit | components/protocols/onewire/onewire.cpp:239-277 | a round settles the next bit as the descent says and leaves exactly the devices that agree with it selected; some device always answers |
| OneWire.Driver.Walk | components/protocols/onewire/onewire.cpp:217-290 | 64 rounds leave in ROM_NO the id the descent leads to, and the last position of a 0 at a fork |
| OneWire.Driver.Search | components/protocols/onewire/onewire.cpp:208-314 | the call refines RomSearch.Search bit by bit on any bus, and copies the id found |
| Gf2Division.RegisterIsRemainder | components/crc/crc.cpp:52-60 | feeding bits into a shift register computes the remainder of polynomial division, for every divisor, message and start value |
| Gf2Division.BurstDetected | components/crc/crc.cpp:52-60 | a burst of errors no longer than the register always changes the remainder |
| Crc.Crc8Bit | components/crc/crc.cpp:55-58 | shifting right and adding 0x8C is one step of division by x^8+x^5+x^4+1 |
| Crc.Crc8Byte | components/crc/crc.cpp:53-59 | eight rounds feed the byte, least significant bit first |
| Crc.Crc8Dallas | components/crc/crc.cpp:48-62 | the CRC8 is the remainder of the message times x^8, for every message |
| Crc.Crc16Byte | components/crc/crc.cpp:78-88 | one byte by the parity table |
| Crc.TableStepFeeds | components/crc/crc.cpp:72-88 | the parity-table step equals eight single-bit steps of division by x^16+x^15+x^2+1, for every register and byte |
| Crc.Crc16Dallas | components/crc/crc.cpp:70-91 | the CRC16 is the remainder of message and start value, for every message and start value |
| Crc.CheckCrc16Dallas | components/crc/crc.cpp:64-68 | true exactly when the two stored bytes are the inverted CRC16, low byte first |
| Crc.Crc8DetectsBurst | components/crc/crc.cpp:48-62 | an error burst of up to 8 bits anywhere changes the CRC8 |
| Crc.Crc16DetectsBurst | components/crc/crc.cpp:64-68 | an error burst of up to 16 bits anywhere makes the CRC16 check fail |
| Crc.CorruptedBytesDetected | components/crc/crc.cpp:48-91 | any corruption of one byte changes the CRC8, and of one byte or two neighbouring ones makes the CRC16 check fail |
| Crc.OwnCrc8Cancels | components/crc/crc.cpp:48-62 | a message followed by a byte has CRC8 zero if and only if the byte is the message's CRC8 |
| Crc.Crc16Chains | components/crc/crc.cpp:70-91 | splitting a message and passing the first CRC16 on gives the CRC16 of the whole |
| Calendar.FormulaIsJulian | components/clock/date_time.cpp:84-91 | the closed formulas count days one by one, every fourth year being leap, for every day number |
| Calendar.FormulaIsGregorianIff | components/clock/date_time.cpp:84-91 | they agree with the day-by-day Gregorian calendar if and only if the day is at most 2100-02-28, within 32 bits |
| Calendar.GregorianAfter2100 | components/clock/date_time.cpp:86-88 | from 2100-03-01 on they are exactly one day behind |
| Calendar.SetterShowsLocalTime | components/clock/date_time.cpp:71-92 | date and time of day are those of local time, fuse included, if and only if that is before 2100-03-01 |
| Calendar.SetThenGetIff | components/clock/date_time.cpp:71-92 | getting back a time that was set is right if and only if the year is 2000 or later and it is not March to December 2100; the 16-bit day count does not overflow |
| Calendar.GetThenSetIff | components/clock/date_time.cpp:139-149 | setting what was got gives the date and time back, from 2000 on, if and only if it is not March to December 2100 |
| Calendar.GetterIsGregorianIff | components/clock/date_time.cpp:139-149 | the getter counts Gregorian days right if and only if the date is at most 2100-12-31 |
| Clock.DateTime.IsLeapYear | components/clock/date_time.cpp:170-181 | the Gregorian rule |
| Clock.DateTime.SetDate | components/clock/date_time.cpp:27-60 | whatever is asked for is clamped to a date of the calendar, and a real date is kept |
| Clock.DateTime.SetHour | components/clock/date_time.cpp:41-48 | the hour is clamped and kept, with its period in 12-hour mode; it is read back as set exactly when it is not PM in that mode |
| Clock.DateTime.Hour | components/clock/date_time.cpp:105-110 | the hour, or in 12-hour mode at PM twelve less in 8 bits |
| Clock.DateTime.SetTime | components/clock/date_time.cpp:41-65 | whatever is asked for is clamped to a time of day, and a real time is kept, with its period in 12-hour mode |
| Clock.DateTime.SetUnixTime | components/clock/date_time.cpp:71-92 | the fields become those of Calendar.FromUnix |
| Clock.DateTime.SetDays | components/clock/date_time.cpp:84-91 | the date part, assigned step by step |
| Clock.DateTime.CountDays | components/clock/date_time.cpp:140-146 | the loop over months with its 16-bit counter computes the day count modulo 2^16 |
| Clock.DateTime.GetUnixTime | components/clock/date_time.cpp:139-149 | the 32-bit result is that of Calendar.ToUnix |
| Clock.Clockin.Fetch | components/clock/include/clockin.hpp:49-52 | shows the time of the uptime counter plus the offset, modulo 2^32 |
| Clock.Clockin.Update | components/clock/include/clockin.hpp:55-57 | keeps the offset between the time shown and the uptime counter |
| Clock.ClockRuns | components/clock/include/clockin.hpp:49-57 | a clock set to a Gregorian date from 2000 on shows, k seconds later, exactly the time k seconds later, up to 2100-02-28 and across a wrap of the uptime counter |
| PumpControl.Wait | main/acionna/pump.hpp:113-124 | a wait loop ends within the switch time times 1000 rounds and one, and reports success only when its goal was seen |
| PumpControl.Interlock | main/acionna/pump.hpp:107-350 | in every run of seconds, stops and starts of all types that come while their guard holds, on any contactor behaviour, the pins of K2 and K3 are never both high at any moment, and each goes high only after the last reading found the other contactor off (when only pins are looked at: while the other pin is low) |
| PumpControl.RunKeeps | main/acionna/pump.hpp:107-551 | the invariant behind it, over every such run: log safe, pins as logged, a sequence under way about to go to star or delta |
| PumpControl.SafeNeverBoth | main/acionna/pump.hpp:167-262 | a log of allowed events never has both pins high |
| PumpControl.ExternalStartSafeIff | main/acionna/pump.hpp:107-282 | in any reachable state a start of any type keeps the interlock if and only if its guard on pins and cached view holds |
| PumpControl.NotClearUnsafe | main/acionna/pump.hpp:129-166 | a direct start of K2 or K3 while the opposite contactor is not clear breaks it, and with the opposite pin high drives both high |
| PumpControl.TripForOneSecond | main/acionna/pump.hpp:457-485 | a thermal relay closed for one second makes an idle motor not idle for just that second |
| Irrigation.DirectInStar | main/acionna/pump.hpp:129-146 | a run in which a direct start of K2, given one second after a star-delta start was asked for, drives K2 and K3 high together |
| PumpControl.FailedStartIsLow | main/acionna/pump.hpp:107-282 | a start that returns an error leaves every output low |
| PumpControl.StateByReading | main/acionna/pump.hpp:457-509 | for any contactors: each state of the motor if and only if the contactors read are those, or the relay is newly closed; a pump with K1 or K2 driven and nothing read on is commanded off, and in every other case the outputs stay as they are |
| PumpControl.DropOutStops | main/acionna/pump.hpp:467-473 | a second that reads all contactors off with K1 or K2 driven, without a new trip, ends with all outputs low, no start-up sequence and the motor idle |
| PumpControl.TimeLaw | main/acionna/pump.hpp:510-530 | a second on takes one from the time left, never below 0, and is counted as on; any other is counted as off; the wait after a stop runs down to 0 and ends |
| PumpControl.WaitIff | main/acionna/pump.hpp:113-124 | a wait ends with the first reading that finds what is waited for; it fails if and only if none of those it looks at does, with one reading more |
| PumpControl.StopShuts | main/acionna/pump.hpp:283-350 | a stop leaves all outputs low, no sequence, the count of seconds off at 0 and the wait set |
| PumpControl.StopWaits | main/acionna/pump.hpp:283-350 | a stop goes on reading until the contactors are first found off or the switch time is over |
| PumpControl.DirectIff | main/acionna/pump.hpp:110-166 | a direct start returns 0, with timer and count set, if and only if the cached view shows the contactor on or one of 1000 readings a millisecond finds it on with its pin high; otherwise 1, with the pump off |
| PumpControl.StaleViewStarts | main/acionna/pump.hpp:110-128 | with a view that wrongly shows the contactor on a direct start returns 0 although its last reading finds it off and stops the pump |
| PumpControl.SwitchOverIff | main/acionna/pump.hpp:167-262 | a change to star or to delta returns 0 if and only if the opposite contactor is seen off in the cached view or in time; otherwise 1 with all outputs low and all else unchanged |
| PumpControl.SwitchOverSets | main/acionna/pump.hpp:167-262 | one that goes through leaves K2 high and K3 low in a sequence, and sets timer, count and, after star, the change to delta |
| PumpControl.SequenceStep | main/acionna/pump.hpp:531-551 | the sequence with any contactors: waits in star for its timer, ends with the change to delta, done or given up, and tries a failed change to star again |
| Pump.Pump.UpdateSwitches | main/acionna/pump.hpp:434-456 | reads pins, contactors and relay into the cache |
| Pump.Pump.WaitFor | main/acionna/pump.hpp:113-124 | the loop refines PumpControl.Wait and respects its bound |
| Pump.Pump.Stop | main/acionna/pump.hpp:283-350 | all outputs low, waits for the contactors, ends a star-delta sequence |
| Pump.Pump.UpdateState | main/acionna/pump.hpp:457-509 | the motor state follows from the contactors read; with nothing read on, no new trip and pin K1 or K2 high the pump is commanded off, and otherwise the pins stay |
| Pump.Pump.UpdateTime | main/acionna/pump.hpp:510-530 | counts the shutdown time down and the seconds on or off up, and the wait after a stop down |
| Pump.Pump.StartDirect | main/acionna/pump.hpp:110-166 | direct start of K1, K2 or K3; the code is 0 if and only if the contactor shows on or comes on in time, and with code 1 the pump is off |
| Pump.Pump.SwitchOver | main/acionna/pump.hpp:167-262 | one contactor of the pair off and seen off, then the other on; all low when it is not seen off in time |
| Pump.Pump.StartToDelta | main/acionna/pump.hpp:167-212 | K3 off and seen off, then K2 and if need be K1 on; in a sequence it returns before the view is refreshed |
| Pump.Pump.StartToY | main/acionna/pump.hpp:213-262 | K2 off and seen off, then K3 and if need be K1 on; sets the change to delta up |
| Pump.Pump.Start | main/acionna/pump.hpp:107-282 | each start type, its return code and the state it leaves |
| Pump.Pump.CheckStartReq | main/acionna/pump.hpp:531-551 | the star-delta sequence, second by second |
| Pump.Pump.Update | main/acionna/pump.hpp:75-82 | one second refines PumpControl.Update, and ends with a pump commanded off whose contactors have dropped out |
| ValveCycle.OrderIsProgrammed | main/acionna/valves.hpp:311-360 | a cycle visits exactly the programmed valves, each once, ascending or descending by the flag |
| ValveCycle.OrderIsOrder | main/acionna/valves.hpp:311-360 | that order is the way find_next takes from the start position to the end |
| ValveCycle.CycleCourse | main/acionna/valves.hpp:127-172 | current valve, timers and all sixteen outputs after every update of a cycle, whatever was left over from before |
| ValveCycle.CurrentExactly | main/acionna/valves.hpp:127-172 | a valve is current for exactly 60 * floor(time / 60) + 1 updates, at its place |
| ValveCycle.CycleEnd | main/acionna/valves.hpp:148-150 | the last update leaves all outputs off and the cycle over |
| ValveCycle.CycleLength | main/acionna/valves.hpp:127-172 | that is update 1 plus the sum of run time + 1 over the programmed valves |
| ValveCycle.CurrentIsOpen | main/acionna/valves.hpp:127-172 | make before break: the output of the current valve is on at every update |
| ValveCycle.OneOpenWithoutDelay | main/acionna/valves.hpp:137-139 | without the delayed close exactly the current valve is open |
| ValveCycle.TwoOpenWithDelay | main/acionna/valves.hpp:132-166 | when the delay fits, the valve before stays open for exactly the delay after the switch |
| ValveCycle.AtMostTwoIffDelayFits | main/acionna/valves.hpp:132-166 | never more than two are open if and only if every valve between the first and the last runs at least as long as the delay |
| ValveCycle.UpdatesAndTime | main/acionna/valves.hpp:233-252 | updates of the programmed valves and their odd seconds add up to the programmed total and one a valve |
| ValveCycle.ForcedSwitch | main/acionna/valves.hpp:422-424 | forced in the middle of a valve's time, the next update opens the next valve for its whole time or ends the cycle, and every valve open before that one stays open |
| Valves.Pcy8575.Write | components/modules/pcy8575/pcy8575.cpp:28-46 | sets one bit of the register and no other, or all for pin 0, and sends it |
| Valves.Pcy8575.Put | components/modules/pcy8575/pcy8575.cpp:55-69 | the whole register |
| Valves.Sequencer.SetValveTime | main/acionna/valves.hpp:230-232 | minutes to seconds, for that valve only |
| Valves.Sequencer.GetTotalTimeProgrammed | main/acionna/valves.hpp:242-252 | the loop sums the times of the programmed valves |
| Valves.Sequencer.SetValveState | main/acionna/valves.hpp:266-272 | drives the valve's bit; ids that are no valve change nothing |
| Valves.Sequencer.Start | main/acionna/valves.hpp:280-296 | all closed, at the start position of the direction |
| Valves.Sequencer.Stop | main/acionna/valves.hpp:297-310 | all closed, no cycle |
| Valves.Sequencer.FindNext | main/acionna/valves.hpp:311-360 | finds and opens the next programmed valve, or ends the cycle |
| Valves.Sequencer.NextForced | main/acionna/valves.hpp:422-424 | ends the time of the current valve |
| Valves.Sequencer.Update | main/acionna/valves.hpp:127-172 | one second refines ValveCycle.Tick |
| Irrigation.PumpSecond | main/acionna/pump.hpp:75-82 | on ideal contactors a second carries a requested start out, goes on with one under way, and counts the timer |
| Irrigation.StarDeltaCourse | main/acionna/pump.hpp:531-551 | a star-delta start that nothing stops is in star for exactly the configured seconds and in delta from then on |
| Irrigation.ValvesTick | main/acionna/valves.hpp:127-172 | every update brings the end of a cycle one nearer and keeps the current valve open until then |
| Irrigation.SecondKeeps | main/acionna/acionna.cpp:1831-1859 | one second in irrigation mode, any stop condition included, keeps the valve cycle longer than the timer, and closes valves only if the pump was off before |
| Irrigation.RunKeeps | main/acionna/acionna.cpp:1831-1859 | the invariant behind it, over every run of seconds, stops and starts: a pump that runs has less time left than its cycle |
| Irrigation.ValvesCloseLast | main/acionna/acionna.cpp:2048-2077 | in every run from power-up, whatever stops the pump, the outputs go all-closed only in a second before which the pump was commanded off |
| Irrigation.ValvesCloseLastIff | main/acionna/acionna.cpp:2048-2077 | ... for all runs if and only if the timer comes before the end of the cycle or no valve is programmed |
| Irrigation.TimerComesFirstIff | main/acionna/acionna.cpp:2064-2065 | it does if and only if it is checked, the total is at least 10 and the odd seconds are at most 10 and one a valve |
| Irrigation.WholeMinutes | main/acionna/acionna.cpp:2064-2065 | in particular with whole minutes and one programmed valve of a minute or more |
| Irrigation.RequestSafeIff | main/acionna/acionna.cpp:662-668 | a star-delta command in any reachable state is safe if and only if no cycle is under way, the cycle outlasts the shutdown time, or it ends with the next second |
| Irrigation.ValvesFollowPump | main/acionna/acionna.cpp:2058-2074 | in every run with any settings the valves are all closed at most one second after the pump is off, and a start without a cycle begins one with its time set |
| Irrigation.StopCheckStops | main/acionna/acionna.cpp:1978-2039 | for any contactors: with the time up, too high a pressure, air found by any detector or the relay closed, each where it is checked, the stop check leaves the pump off; without any of them it changes nothing |
| Irrigation.StartMatchIs | main/acionna/acionna.cpp:1860-1889 | a matching entry starts an idle pump in its mode, with its time if it has one, and nothing else happens |
| Irrigation.ValvesByMotor | main/acionna/acionna.cpp:2048-2077 | speeding up without a cycle starts one and sets timer and shutdown time; in delta the current valve is set again and no other; with any other state of the motor all valves are closed |
| Irrigation.SecondStops | main/acionna/acionna.cpp:1831-1859 | lifted to a whole second, if no direct start of an idle motor is due in it: a reason to stop ends it with all outputs low, no reason leaves them as the updates did |
| Irrigation.StartsAfterStop | main/acionna/acionna.cpp:1831-1859 | the exception is real: a second that stops an idle pump for air and finds an entry for a direct start ends with K1 high |
| Controller.LastMatch | main/acionna/acionna.cpp:1865-1872 | the last entry of the start list that has the time, or none |
| Controller.Acionna.FindMatch | main/acionna/acionna.cpp:1865-1872 | the loop goes on to the last entry that matches |
| Controller.Acionna.CheckLowPressure | main/acionna/acionna.cpp:1997-2018 | the three air checks on two detectors, with what they leave in them; air found by one that is asked leaves the pump off, and otherwise it is unchanged |
| Controller.Acionna.OperationPumpStopCheck | main/acionna/acionna.cpp:1978-2039 | the stop conditions in their order; with any of them met by flags, pump, pressures, detectors or relay the pump is off afterwards, and otherwise it is unchanged |
| Controller.Acionna.OperationPumpStartMatch | main/acionna/acionna.cpp:1860-1889 | the last matching entry starts an idle pump in its way and sets its shutdown time; without one, or with a motor that is not idle, nothing changes |
| Controller.Acionna.OperationPumpValves | main/acionna/acionna.cpp:2048-2077 | valves follow the pump: started while it speeds up, stopped when it is off, timer and setting in 32 bits |
| Controller.Acionna.UpdateClock | main/acionna/acionna.cpp:2435-2446 | shows the clock anew, counts uptime and the second of the day |
| Controller.Acionna.UpdateObjects | main/acionna/acionna.cpp:2447-2462 | pump, both pipes, valves |
| Controller.Acionna.OperationMode | main/acionna/acionna.cpp:1831-1847 | stop check, start match and valves, in this order |
| Controller.Acionna.RunEverySecond | main/acionna/acionna.cpp:2121-2130 | one second of the objects refines Irrigation.Second, with the verdicts of detectors, pressures and start list of that second |
| Controller.Acionna.SecondStopsWhenDue | main/acionna/acionna.cpp:2121-2130 | that second ends with all outputs low if, by the flags, the pipes and the pump after its updates, there is a reason to stop, and with the outputs unchanged if not, unless a direct start of an idle motor is due |
| NightSchedule.NoStartInRed | main/acionna/acionna.cpp:1890-1977 | in every run in which each second of red time finds the motor idle, no start planned in the window, or no cycle left, no start is issued strictly between red time and start time |
| NightSchedule.RedTimeQuietIff | main/acionna/acionna.cpp:1962-1975 | the window after red time stays without a start, whatever the motor does in it, if and only if before the call of red time the motor is idle, or none is planned in it, or no cycle is left |
| NightSchedule.RedWindowQuietIff | main/acionna/acionna.cpp:1903-1947 | from a state at red time on, the window stays without a start, whatever the motor does, if and only if none is planned in it or no cycle is left |
| NightSchedule.TripAtRedTime | main/acionna/acionna.cpp:1962-1968 | a concrete run in which the motor is not idle in the one second of red time, and the start planned for 41 seconds later is issued |
| NightSchedule.NightBounded | main/acionna/acionna.cpp:1915-1946 | between two start-time matches event e is started at most cycles_n times and all together at most the sum |
| NightSchedule.PositionGrows | main/acionna/acionna.cpp:1915-1946 | between two start-time matches (event_i, cycle_i) only grows |
| NightSchedule.StartsSpent | main/acionna/acionna.cpp:1918-1929 | every cycle behind the position was started, for any motor, but for the one that the start time used up if the motor was not idle then |
| NightSchedule.PickFindsWork | main/acionna/acionna.cpp:1915-1946 | the loop finds an event to start if and only if some event from the position on has cycles left |
| NightSchedule.Pick | main/acionna/acionna.cpp:1915-1946 | the loop over the events ends, and starts at most one, an existing one |
| NightSchedule.StartIff | main/acionna/acionna.cpp:1895-1929 | a second issues a start of event e if and only if the motor is idle, it is the start time or the planned time, and e is the first event with cycles left from the position on, at the start time from event 0 on |
| NightSchedule.CycleIff | main/acionna/acionna.cpp:1895-1929 | a cycle of e is counted in the same cases, and at the start time also with a motor that is not idle |
| NightSchedule.PositionLaw | main/acionna/acionna.cpp:1895-1946 | the position moves to the event counted, one cycle on, or past the end when no cycle is left, and not otherwise |
| NightSchedule.RunningLaw | main/acionna/acionna.cpp:1901-1943 | the running flag is set at the start time and cleared by a match that finds the position past the end |
| NightSchedule.PlanLaw | main/acionna/acionna.cpp:1950-1975 | a counted cycle is followed by a plan for delay seconds after the first call with the motor idle; red time stops a motor that is not idle and puts a later plan a minute into the past |
| NightSchedule.NightComplete | main/acionna/acionna.cpp:1890-1977 | with an idle motor, and time before midnight for all of them, every event is started exactly cycles_n times in a night |
| NightSchedule.IdleStarts | main/acionna/acionna.cpp:1890-1977 | the i-th of these starts comes i - 1 delays after the start time |
| NightSchedule.PlanLostIff | main/acionna/acionna.cpp:1950-1959 | a plan made in the evening with cycles left is lost, whatever the motor does up to the next start time, if and only if its time is past midnight |
| Schedule.Optimizer.StartNextEvent | main/acionna/acionna.cpp:1915-1946 | the do-while refines NightSchedule.Pick, issues at most one start and sets its shutdown time |
| Schedule.Optimizer.MatchTimes | main/acionna/acionna.cpp:1895-1947 | start-time and next-time matches; event e is started if and only if the motor is idle, one of them is due and e is the next event with cycles left |
| Schedule.Optimizer.PlanNextTime | main/acionna/acionna.cpp:1950-1959 | plans the next start once the motor is idle, not reduced to a time of day |
| Schedule.Optimizer.CheckRedTime | main/acionna/acionna.cpp:1962-1975 | at red time stops a running pump or withdraws a later plan |
| Schedule.Optimizer.StartMatchOptimized | main/acionna/acionna.cpp:1890-1977 | one call on the pump object refines NightSchedule.Call, with the whole new state of the pump; it starts event e in exactly those cases, sets the shutdown time of the event, and stops a motor that is not idle at red time and only then |
| Schedule.Optimizer.UpdateClock | main/acionna/acionna.cpp:2435-2445 | the second of the day, back to 0 at 86400 |
| AirIntake.DetectionNeedsSeven | main/acionna/pipepvc.hpp:71-165 | a detection comes only after seven calls that all saw the reference state |
| AirIntake.DetectionsApart | main/acionna/pipepvc.hpp:71-165 | two detections are at least eight calls apart |
| AirIntake.NoFalseAlarm | main/acionna/pipepvc.hpp:98-101 | while the pressure varies by less than 30 % and stays above the low mark nothing is ever reported |
| AirIntake.DropDetected | main/acionna/pipepvc.hpp:95-101 | after six active calls a pressure below 70 % of all seen since the detector left idle is reported with the next call |
| AirIntake.SevenCanBeEnough | main/acionna/pipepvc.hpp:71-165 | the bound of seven is attained |
| AirIntake.CountsForEver | main/acionna/pipepvc.hpp:104-106 | the count is that of all equal readings of all activations |
| AirIntake.StableIff | main/acionna/pipepvc.hpp:103-112 | an increasing pressure becomes stable if and only if the reading equals the average and it is at least the tenth such reading ever |
| AirIntake.OldReadingsCount | main/acionna/pipepvc.hpp:103-112 | a run in which nine readings of a first activation make the first equal reading of the second suffice |
| AirIntake.AverageBounded | main/acionna/pipepvc.hpp:119-124 | while active the average lies between the least and the greatest pressure since the detector left idle |
| AirIntake.NextPhase | main/acionna/pipepvc.hpp:71-165 | when each phase is left and for which: by the motor, a drop below 70 % of the last reading or of the average, a pressure below 10, the tenth equal reading |
| AirIntake.NextAverages | main/acionna/pipepvc.hpp:119-147 | a call that stays in its phase takes the pressure into the average, half the sum rounded up |
| AirIntake.Pipe.AirIntakeDetect | main/acionna/pipepvc.hpp:71-165 | one call refines AirIntake.Next and reports exactly a pending slope |
| Fragmentation.SendLoop | components_extra/esp_websocket_client/esp_websocket_client.c:1126-1156 | the loop over widx and need_write sends the frames of Fragmentation.Send |
| Fragmentation.NextChunk | components_extra/esp_websocket_client/esp_websocket_client.c:1128-1133 | the next chunk, cut to the buffer, the last one marked |
| Fragmentation.MessageFragmented | components_extra/esp_websocket_client/esp_websocket_client.c:1126-1156 | for every length, buffer and opcode the frames are a message by section 5.4 of RFC 6455 and concatenate to the payload, and the length is returned, if each chunk is taken whole; only a continuation without bytes sends nothing |
| Fragmentation.FragmentedIffTookAll | components_extra/esp_websocket_client/esp_websocket_client.c:1126-1156 | a send that did not fail does this if and only if each chunk was taken whole |
| Fragmentation.AbortedIff | components_extra/esp_websocket_client/esp_websocket_client.c:1137-1150 | a send aborts if and only if the transport refuses its last frame, and returns that answer; 0 exactly for a frame of which no byte was taken |
| Fragmentation.ZeroWriteReturnsZero | components_extra/esp_websocket_client/esp_websocket_client.c:1137-1150 | a transport that takes nothing makes exactly the messages with bytes fail, with code 0 |
| PingPong.RunCounts | components_extra/esp_websocket_client/esp_websocket_client.c:874-892 | in every reachable connected state the deadline counts from the first ping, by what the turns got from outside, since the last pong or connect |
| PingPong.PongDeadline | components_extra/esp_websocket_client/esp_websocket_client.c:885-891 | the first turn past it, with no close frame sent, gives the connection up; no earlier one does for want of a pong |
| PingPong.NoPingAfterClose | components_extra/esp_websocket_client/esp_websocket_client.c:871-883 | once the close bit is set no ping is sent in any later turn |
| PingPong.TurnPings | components_extra/esp_websocket_client/esp_websocket_client.c:871-883 | a turn sends one ping if the client is connected, no close frame was sent and the interval is over, and none otherwise |
| PingPong.CollectsWhole | components_extra/esp_websocket_client/esp_websocket_client.c:764-792 | a payload is reported exactly when a piece completes it, every piece before being partial |
| PingPong.CollectsFailed | components_extra/esp_websocket_client/esp_websocket_client.c:764-771 | a read fails if and only if an error, or the end of what comes, is met before a piece completes the payload |
| PingPong.ConnectedTurn | components_extra/esp_websocket_client/esp_websocket_client.c:871-945 | where a connected turn leads, from what it gets: given up for an overdue pong, a failed read or a failed poll; closing when a close frame is read; and a pong read, and nothing else, ends the wait for it |
| PingPong.OtherTurn | components_extra/esp_websocket_client/esp_websocket_client.c:837-962 | connecting, and connecting again if and only if the timeout since the last attempt is over; closing |
| PingPong.GivenUpAt | components_extra/esp_websocket_client/esp_websocket_client.c:220-234 | with automatic reconnect the time runs from the moment the connection was given up |
| PingPong.TurnSends | components_extra/esp_websocket_client/esp_websocket_client.c:794-906 | a turn sends the close frame, a ping when due and the answer to the ping it reads, with as many bytes, and nothing else |
| PingPong.OtherSteps | components_extra/esp_websocket_client/esp_websocket_client.c:220-234 | a close frame is sent once; a failed send gives a connection up |
| PingPong.LeavesEarlyIff | components_extra/esp_websocket_client/esp_websocket_client.c:948-962 | the loop is left before the server has closed if and only if the first poll after the close frames says so |
| WebSocketClient.Client.AbortConnection | components_extra/esp_websocket_client/esp_websocket_client.c:220-234 | waits for the reconnect, from now on if it is automatic |
| WebSocketClient.Client.SendWithOpcode | components_extra/esp_websocket_client/esp_websocket_client.c:1097-1161 | refused calls send nothing and change nothing; others send the frames of Fragmentation.Send and abort on failure |
| WebSocketClient.Client.ReadPieces | components_extra/esp_websocket_client/esp_websocket_client.c:764-792 | the loop over the pieces of a payload computes PingPong.Collect |
| WebSocketClient.Client.ReceiveData | components_extra/esp_websocket_client/esp_websocket_client.c:757-806 | what a read does: ping time, answer to a ping, failure; after a pong the client does not wait for one, after a close frame it is closing |
| WebSocketClient.Client.TaskConnected | components_extra/esp_websocket_client/esp_websocket_client.c:871-906 | a turn in the connected phase: ping, deadline, read, in this order |
| WebSocketClient.Client.TaskSwitch | components_extra/esp_websocket_client/esp_websocket_client.c:837-929 | what a turn does in each phase |
| WebSocketClient.Client.TaskTurn | components_extra/esp_websocket_client/esp_websocket_client.c:832-962 | one turn refines PingPong.Turn |
| KeepAlive.MaxDelayBounds | components/connections/ws_keep_alive.c:54-69 | with any readings of the clock the sleep is at most 30 s, and for every client at most 1 s or at most the time it has left |
| KeepAlive.MaxDelayAttained | components/connections/ws_keep_alive.c:54-69 | nor is it shorter than needed: 30 s, 1 s because of an overdue client, or exactly the time left of some client |
| KeepAlive.MaxDelayIsLeast | components/connections/ws_keep_alive.c:54-69 | the sleep in closed form: the least of 30 s and all times left, or, with an overdue client, of 1 s and the times left after the last overdue slot |
| KeepAlive.OversleepsIff | components/connections/ws_keep_alive.c:60-65 | the sleep exceeds the time a client has left if and only if it stands before the last overdue slot and has less left than 1 s and than all clients after that slot |
| KeepAlive.Oversleeps | components/connections/ws_keep_alive.c:60-65 | a table for which it does |
| KeepAlive.CheckAllNotices | components/connections/ws_keep_alive.c:138-152 | a round notices exactly the active clients that are due, dead or not by the longer limit |
| KeepAlive.CheckAllOnce | components/connections/ws_keep_alive.c:138-152 | each of them once |
| KeepAlive.NoticedInTime | components/connections/ws_keep_alive.c:107-154 | with a quiet queue a client is pinged or reported dead in a round that begins at most 1000 ms (and twice the slack of the loop) after it becomes due |
| KeepAlive.OverdueNoticedFirst | components/connections/ws_keep_alive.c:107-154 | one already overdue is noticed after the first sleep, of at most 1000 ms |
| KeepAlive.AddThenRemove | components/connections/ws_keep_alive.c:83-105 | adding a new client and removing it brings the table back |
| KeepAlive.SeenPostpones | components/connections/ws_keep_alive.c:72-81 | a sign of life keeps a client from being noticed for a whole period |
| KeepAlive.AddedClient | components/connections/ws_keep_alive.c:94-105 | a new client gets the first free slot, with the present time as its last sign of life, and no other slot changes; without a free one nothing does |
| KeepAlive.OtherActions | components/connections/ws_keep_alive.c:72-93 | a client that goes frees its first slot, a sign of life sets the time of it, and no other slot changes; nothing else does anything |
| KeepAlive.AddedIsNotNoticed | components/connections/ws_keep_alive.c:94-152 | a client just added is not noticed before a whole period is over |
| KeepAlive.Engine.GetMaxDelay | components/connections/ws_keep_alive.c:54-69 | the loop over the slots, which reads the clock anew each time, computes KeepAlive.MaxDelay |
| KeepAlive.Engine.UpdateClient | components/connections/ws_keep_alive.c:72-81 | the first active slot of the client gets the time, no other slot changes |
| KeepAlive.Engine.RemoveClient | components/connections/ws_keep_alive.c:83-93 | the first active slot of the client is freed, no other slot changes |
| KeepAlive.Engine.AddNewClient | components/connections/ws_keep_alive.c:94-105 | the first free slot is taken, if there is one, by the client with the present time |
| KeepAlive.Engine.HandleAction | components/connections/ws_keep_alive.c:115-137 | each action from the queue |
| KeepAlive.Engine.CheckClients | components/connections/ws_keep_alive.c:138-152 | the round of pings and reports, in slot order, with its own readings of the clock |

## Left out

- GPIO, ADC, I2C, SPI and PWM drivers, sensors, displays, WiFi, Bluetooth, HTTP, OTA, NTP and NVS: traffic with
  hardware and libraries; their readings are inputs here.
- handle_message and the reports in acionna.cpp: a table of commands and texts. Its pump commands are steps of
  the runs, under the guards that PumpControl.Permitted and Irrigation.MayStart name.
- Commands that change settings in the middle of a run: the theorems on the interlock, the valves, irrigation and
  the schedule are about fixed settings. Switching the pump to looking at pins only, or back
  (main/acionna/acionna.cpp:1004), makes the cached view mean something else until the next reading.
- Setting the second of the day, by command or from NTP (main/acionna/acionna.cpp:520, 570): in the runs of the
  schedule it only counts.
- Electrical faults of the 1-Wire bus: devices are a fixed set during a search, so the early exit when nobody
  answers cannot be reached.
- The 16-bit registers of the CRC16 and of the output module are lists of 16 bits, bit 0 first.
- Clock: day_of_week and the copying getters; BCD in the real-time clock chips.
- Pump: logs, and the time of day at which it was last stopped; the debounce delays and the times that contactors
  take.
- Pump: every wait loop is one method; the counter that the loops of one start share starts at 0 in each, as at
  most one of them runs in a start.
- Valves: pressure averages and logs, flow and rain (floating point), find_next_in_sequence; the constructor's
  removal of a twelfth valve, which writes beyond the table.
- Output module: reading the register back, which only reports do.
- Irrigation: the total is summed without wrap-around and reduced modulo 2^32 where it is used, which is the same;
  no other command than stop and star-delta start comes between seconds.
- Controller.Acionna.OperationMode: does not model the other modes of the switch, of which the optimized one is in
  Schedule.
- Controller.Acionna.RunEverySecond: does not model the messages and the sensor readings of the second, which do
  not touch pump, valves and pipes.
- Controller.Acionna.UpdateObjects: does not model the conversion of a sensor reading to a pressure, which is given.
- Night schedule: the enable flag is on; other start lists and modes; signed 32-bit conversions of cycle counters.
- Air intake: pressures are unbounded integers and 0.70 * x is compared as 10 * p < 7 * x, without rounding; the
  timers that decide nothing.
- WebSocketClient.Client.ReceiveData: does not model the contents of payloads and the events they are reported with;
  a run of reads that never ends counts as one that fails.
- WebSocketClient.Client.TaskTurn: does not model other tasks acting within a turn, except right after the close bit
  was looked at.
- WebSocketClient.Client.SendWithOpcode: does not model lengths beyond 31 bits.
- WebSocket: TLS, headers, events and the handshake; user stop of the client task; overflow of the configured
  intervals in milliseconds.
- Keep-alive: 64-bit wrap-around of the time in milliseconds; the queue itself.
