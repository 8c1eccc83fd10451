/**
 The 8-bit control register `TCCR1B` of timer 1, as Digital_Clock.c sets it
 up in `TIMER1_init` and changes it in the stop (`ISR(INT1_vect)`) and resume
 (`ISR(INT2_vect)`) button handlers.

 Bit layout (ATmega32 data sheet): bits 0-2 are the clock-select field
 CS10, CS11, CS12; bit 3 is WGM12 (clear-timer-on-compare mode); bits 4-7 are
 WGM13, a reserved bit, ICES1 and ICNC1, which the program never touches.
 */
module TimerControl {

  const CS10: bv8 := 1 << 0
  const CS11: bv8 := 1 << 1
  const CS12: bv8 := 1 << 2
  const WGM12: bv8 := 1 << 3

  /** The clock-select field, bits 0-2. */
  const ClockSelectMask: bv8 := CS10 | CS11 | CS12

  /** The clock-select value for the system clock divided by 1024. */
  const Prescale1024: bv8 := CS10 | CS12

  /** The register value after reset of the microcontroller. */
  const PowerOnValue: bv8 := 0

  /** The clock-select field of a register value. */
  function ClockSelect(reg: bv8): (cs: bv8)
    ensures cs <= 7
  {
    reg & ClockSelectMask
  }

  /** The timer counts (and so raises compare-match interrupts) exactly when
      some clock source is selected. */
  predicate Running(reg: bv8) {
    ClockSelect(reg) != 0
  }

  /** `TIMER1_init`: select the 1024 prescaler and CTC mode, or-ing them
      into whatever the register held. */
  function TimerInit(reg: bv8): (r: bv8)
    ensures Running(r) && r & WGM12 == WGM12
    ensures ClockSelect(r) & Prescale1024 == Prescale1024
    ensures r & !(Prescale1024 | WGM12) == reg & !(Prescale1024 | WGM12)
  {
    reg | CS10 | CS12 | WGM12
  }

  /** The stop button handler: `TCCR1B &= 0xF8`. */
  function Stop(reg: bv8): (r: bv8)
    ensures !Running(r)
  {
    reg & 0xF8
  }

  /** The resume button handler: `TCCR1B |= (1 << CS10) | (1 << CS12)`. */
  function Resume(reg: bv8): (r: bv8)
    ensures Running(r)
  {
    reg | CS10 | CS12
  }

  /** Stop is characterised by its effect on the two parts of the register:
      it clears the clock-select field and keeps bits 3-7, WGM12 among them. */
  lemma StopTouchesOnlyClockSelect(reg: bv8, r: bv8)
    ensures Stop(reg) == r <==>
      ClockSelect(r) == 0 && r & !ClockSelectMask == reg & !ClockSelectMask
  {
  }

  /** Resume is characterised by its effect: it sets CS10 and CS12 and
      keeps every other bit, CS11 included. */
  lemma ResumeTouchesOnlyCs10Cs12(reg: bv8, r: bv8)
    ensures Resume(reg) == r <==>
      r & Prescale1024 == Prescale1024 && r & !Prescale1024 == reg & !Prescale1024
  {
  }

  /** Pressing stop twice is the same as pressing it once, and likewise
      for resume. */
  lemma StopResumeIdempotent(reg: bv8)
    ensures Stop(Stop(reg)) == Stop(reg)
    ensures Resume(Resume(reg)) == Resume(reg)
  {
  }

  /** Stop followed by resume selects the 1024 prescaler again, as init
      does, and leaves bits 3-7 as they were; on the register that init set
      up from its power-on value the whole register is restored. */
  lemma StopResumeRestoresInit(reg: bv8)
    ensures ClockSelect(Resume(Stop(reg))) == Prescale1024
    ensures ClockSelect(TimerInit(PowerOnValue)) == Prescale1024 == 0x05
    ensures Resume(Stop(reg)) & !ClockSelectMask == reg & !ClockSelectMask
    ensures Resume(Stop(TimerInit(PowerOnValue))) == TimerInit(PowerOnValue)
  {
  }
}
