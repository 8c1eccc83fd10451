# Digital clock: timekeeping state machine

A Dafny model of the timekeeping core of `Digital_Clock.c`. This is an
ATmega32 firmware that shows hh:mm:ss on six multiplexed seven-segment
digits. Time is kept in six `unsigned char` globals, `sec_p0` .. `hr_p1`.
Four interrupt handlers change them:

- the timer 1 compare-match handler ticks the time by one second, using a ripple carry;
- the reset button (INT0) zeroes the digits and the timer counter `TCNT1`;
- the stop button (INT1) clears the clock-select bits of `TCCR1B`;
- the resume button (INT2) sets CS10 and CS12 again.

The model has four modules, one per file:

- `ClockState` (`clock_state.dfy`) holds the six counters as three
  `Digits(p0, p1)` pairs, where `c.sec.p0` is `sec_p0`. It also holds the
  validity invariant and the bijection between valid states and the
  86400 seconds of a day (`Decode`/`Encode`). `unsigned char` is the
  subset type `uint8`, and `++` is `Inc`, which wraps 255 to 0.
- `TickHandler` (`tick.dfy`) defines `Tick`, a total pure function that
  tests the digits in the handler's order, including the `hr_p0 == 4 &&
  hr_p1 == 2` trap before the `hr_p0 == 10` carry. It also defines `TickN`
  (n ticks) and the lemmas tying them to `(s + 1) % 86400`.
- `TimerControl` (`timer_control.dfy`) models `TCCR1B` as a `bv8`. It
  covers the value `TIMER1_init` ORs in, the stop and resume bit operations,
  and "running" (clock-select bits non-zero).
- `ClockMachine` (`clock_machine.dfy`) combines digits, `TCNT1` and
  `TCCR1B` into one machine driven by a sequence of interrupt events. A
  compare match fires only while the timer runs. The module proves that
  every event refines a reference clock: seconds modulo 86400 plus a
  running flag.

Each handler is one atomic transition. The clock is 24-hour only: its one
rollover is 23:59:59 to 00:00:00 (Digital_Clock.c:123-126).

## Model

| member | source | states |
|---|---|---|
| ClockState.Inc | Digital_Clock.c:24 | `++` on an `unsigned char` is addition modulo 256 |
| ClockState.Decode | Digital_Clock.c:24 | the digits of a valid state show a time below 86400 seconds |
| ClockState.Encode | Digital_Clock.c:24 | every second of the day has a valid digit state that decodes to it |
| ClockState.EncodeDecode | Digital_Clock.c:24 | encoding the decoded time of a valid state gives back the same six digits |
| ClockState.DecodeInjective | Digital_Clock.c:24 | two valid states show the same time if and only if they are equal |
| ClockState.MidnightShowsZero | Digital_Clock.c:24 | the zero-initialised globals are valid and show 00:00:00 |
| TickHandler.Tick | Digital_Clock.c:98-139 | the compare-match handler as a total function; its behaviour is stated by TickAdvancesOneSecond, TickMatchesReference, TickCarries, TickHourRollover and TickSecondsOnes |
| TickHandler.TickN | Digital_Clock.c:98-139 | `n` handler runs in a row; stated by TickNAdvances and TickNMatchesReference |
| TickHandler.TickSecondsOnes | Digital_Clock.c:101-105 | a seconds-ones digit other than 9 goes up by one (an out-of-range one wraps at 256) and nothing else changes; 9 becomes 0 and carries into the seconds-tens digit |
| TickHandler.TenTicksCarryOnce | Digital_Clock.c:101-105 | ten ticks from x0 seconds (x < 5) carry exactly one into the seconds-tens digit and change nothing else |
| TickHandler.TickPreservesValid | Digital_Clock.c:98-139 | from a valid state every digit stays in range and the hour at most 23, so no counter reaches the byte wrap |
| TickHandler.TickHourRollover | Digital_Clock.c:118-131 | at hh:59:59 the trap turns 23 into 00, a ones carry turns 09 and 19 into 10 and 20, and other hours go up by one |
| TickHandler.TickCarries | Digital_Clock.c:98-139 | a tick shows one second more, except that 23:59:59 is followed by 00:00:00 |
| TickHandler.TickAdvancesOneSecond | Digital_Clock.c:98-139 | on a valid state a tick keeps validity and the decoded time becomes (time + 1) mod 86400 |
| TickHandler.TickMatchesReference | Digital_Clock.c:98-139 | a tick equals the reference clock's encoded (time + 1) mod 86400 |
| TickHandler.TickReachesMidnight | Digital_Clock.c:123-126 | a tick shows 00:00:00 if and only if the time was 23:59:59 |
| TickHandler.TickAdvancesCount | Digital_Clock.c:98-139 | a tick on a state showing a mod 86400 shows a + 1 mod 86400 |
| TickHandler.TickNAdvances | Digital_Clock.c:98-139 | n ticks from a valid state keep validity and advance the time by n mod 86400 |
| TickHandler.TickNMatchesReference | Digital_Clock.c:98-139 | n ticks from any valid state give exactly the digits the reference clock shows n seconds later, mod 86400 |
| TickHandler.TicksFromMidnight | Digital_Clock.c:98-139 | n ticks after power-on give the digits of n mod 86400 |
| TickHandler.OneHourOneMinuteOneSecond | Digital_Clock.c:98-139 | 3661 ticks after power-on show 01:01:01 |
| TimerControl.TimerInit | Digital_Clock.c:179 | after init the timer runs in CTC mode with CS10, CS12 and WGM12 set, and every other bit keeps its value |
| TimerControl.Stop | Digital_Clock.c:157-161 | after stop the timer is not running |
| TimerControl.Resume | Digital_Clock.c:165-169 | after resume the timer is running |
| TimerControl.StopTouchesOnlyClockSelect | Digital_Clock.c:157-161 | a register value is the result of stop exactly when its bits 0-2 are clear and its bits 3-7 equal the old ones |
| TimerControl.ResumeTouchesOnlyCs10Cs12 | Digital_Clock.c:165-169 | a register value is the result of resume exactly when CS10 and CS12 are set and every other bit equals the old one |
| TimerControl.StopResumeIdempotent | Digital_Clock.c:157-169 | stop twice is stop once, and resume twice is resume once |
| TimerControl.StopResumeRestoresInit | Digital_Clock.c:157-179 | stop then resume selects 0b101, the init prescaler, and keeps bits 3-7; on the initialised register it restores the whole value |
| ClockMachine.PowerOn | Digital_Clock.c:24 | after start-up the digits are valid and show 00:00:00, `TCNT1` is 0, and the timer runs with the init prescaler |
| ClockMachine.Step | Digital_Clock.c:98-169 | one interrupt: a compare match ticks only while running, the buttons run reset, stop or resume; stated by StepRefines and ControlKeepsCounters |
| ClockMachine.Run | Digital_Clock.c:98-169 | a sequence of interrupts handled in order; stated by RunRefines, StoppedIsFrozen and RunningTicks |
| ClockMachine.Reset | Digital_Clock.c:143-153 | reset leaves a valid state showing 00:00:00 with `TCNT1` at 0 and the register untouched |
| ClockMachine.ResetIdempotent | Digital_Clock.c:143-153 | reset twice is reset once |
| ClockMachine.ResetIgnoresState | Digital_Clock.c:143-153 | the digits and counter after reset do not depend on the prior state, stopped or not, and the running state is kept |
| ClockMachine.CompareMatchRefines | Digital_Clock.c:98-139 | a compare match advances the reference clock by one second while running and does nothing while stopped |
| ClockMachine.ResetRefines | Digital_Clock.c:143-153 | reset sets the reference time to 0 and keeps the running state |
| ClockMachine.StopRefines | Digital_Clock.c:157-161 | stop keeps the time and stops the reference clock |
| ClockMachine.ResumeRefines | Digital_Clock.c:165-169 | resume keeps the time and starts the reference clock |
| ClockMachine.StepRefines | Digital_Clock.c:98-169 | every interrupt keeps validity and agrees with the reference clock |
| ClockMachine.RunRefines | Digital_Clock.c:98-169 | any sequence of interrupts from a valid state agrees with the reference clock run on the same events |
| ClockMachine.ReachableValid | Digital_Clock.c:98-179 | every state reachable from power-on shows a valid time below 86400 seconds |
| ClockMachine.StoppedIsFrozen | Digital_Clock.c:157-161 | while stopped, compare-match events change neither digits, counter nor register |
| ClockMachine.StopFreezesClock | Digital_Clock.c:157-161 | after stop, any number of timer periods leaves the shown time unchanged |
| ClockMachine.ControlKeepsCounters | Digital_Clock.c:157-169 | stop and resume leave the digits and `TCNT1` alone; afterwards the timer is stopped, respectively running |
| ClockMachine.RunningTicks | Digital_Clock.c:98-139 | while running, n compare matches are n ticks of the digits and change nothing else |
| ClockMachine.ResumeThenTicks | Digital_Clock.c:165-169 | resume followed by n timer periods performs exactly n ticks |
| ClockMachine.ResumeAdvancesTime | Digital_Clock.c:165-169 | resume followed by n timer periods advances the shown time by n mod 86400 |

## Left out

- The display multiplexing loop in `main` (Digital_Clock.c:65-93): port writes and `_delay_ms`. This is pure output and timing.
- Pin, port and interrupt configuration: `DDRx`, `PORTx`, `MCUCR`, `MCUCSR`, `GICR`, `TIMSK` and `SREG` (Digital_Clock.c:38-56, 181-221). This is hardware set-up with no effect on the time kept.
- Concurrency between the handlers and the display loop, including torn reads of the six globals. Every handler is treated as one atomic transition.
- The timer period (`OCR1A = 976` and `FOC1A`, Digital_Clock.c:175-178). A compare match is abstracted as an event that fires only while a clock source is selected.
- Hardware counting of `TCNT1`. The model's `elapsed` field changes only on reset. The counting between compare matches and the CTC clear on a match are timer hardware and are not modelled.
- Edge selection and debouncing of the three buttons. Each press is one event.
- The power-on value of `TCCR1B` is taken to be 0, the microcontroller's documented reset value (`PowerOnValue`). `TIMER1_init` ORs into whatever the register holds, and `TimerInit` is modelled that way.
- TimerControl.Stop: its contract says only that the timer is stopped. The full bitwise effect is stated by `StopTouchesOnlyClockSelect`.
- TimerControl.Resume: its contract says only that the timer runs. The full bitwise effect is stated by `ResumeTouchesOnlyCs10Cs12`.
