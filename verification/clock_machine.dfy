/**
 The clock as a whole: the six digit counters, timer 1's elapsed counter
 `TCNT1` and its control register `TCCR1B`, driven by four interrupts of
 Digital_Clock.c. Each handler runs as one atomic transition.
 */
module ClockMachine {
  import opened ClockState
  import opened TickHandler
  import opened TimerControl

  /** The range of the 16-bit counter `TCNT1`. */
  type uint16 = x: int | 0 <= x < 65536

  datatype Machine = Machine(clock: Clock, elapsed: uint16, control: bv8)

  /** The interrupts the program handles: timer 1's compare match and the
      reset (INT0), stop (INT1) and resume (INT2) buttons. */
  datatype Event = CompareMatch | ResetPressed | StopPressed | ResumePressed

  /** After power-on and `TIMER1_init`: zeroed globals and counter, timer
      running with the 1024 prescaler in CTC mode. */
  function PowerOn(): (m: Machine)
    ensures Valid(m.clock) && Decode(m.clock) == 0 && m.elapsed == 0
    ensures Running(m.control) && ClockSelect(m.control) == Prescale1024
  {
    MidnightShowsZero();
    Machine(Midnight(), 0, TimerInit(PowerOnValue))
  }

  /** The reset button handler: `TCNT1` and all six digits become 0. */
  function Reset(m: Machine): (r: Machine)
    ensures Valid(r.clock) && Decode(r.clock) == 0
    ensures r.elapsed == 0
    ensures r.control == m.control
  {
    m.(clock := Midnight(), elapsed := 0)
  }

  /** One interrupt. A compare match can only fire while the timer has a
      clock source; when it has none, the event changes nothing. */
  function Step(m: Machine, e: Event): Machine {
    match e
    case CompareMatch => if Running(m.control) then m.(clock := Tick(m.clock)) else m
    case ResetPressed => Reset(m)
    case StopPressed => m.(control := Stop(m.control))
    case ResumePressed => m.(control := Resume(m.control))
  }

  /** A sequence of interrupts, handled in order. */
  function Run(m: Machine, es: seq<Event>): Machine
    decreases |es|
  {
    if es == [] then m else Run(Step(m, es[0]), es[1..])
  }

  /** Pressing reset twice is the same as pressing it once. */
  lemma ResetIdempotent(m: Machine)
    ensures Reset(Reset(m)) == Reset(m)
  {
  }

  /** Reset does not look at the state it interrupts: the digits and the
      counter it leaves are the same whatever they were and whether or not
      the timer was stopped, and the register is left as it was. */
  lemma ResetIgnoresState(m: Machine, n: Machine)
    ensures Reset(m).clock == Reset(n).clock && Reset(m).elapsed == Reset(n).elapsed
    ensures Running(Reset(m).control) == Running(m.control)
  {
  }

  /** The reference clock: seconds since midnight and whether time runs. */
  datatype Reference = Reference(seconds: nat, running: bool)

  /** What the digits and the register mean. */
  function Abstract(m: Machine): Reference {
    Reference(Decode(m.clock), Running(m.control))
  }

  /** The intended behaviour of each interrupt on the reference clock. */
  function ReferenceStep(a: Reference, e: Event): Reference {
    match e
    case CompareMatch =>
      if a.running then Reference((a.seconds + 1) % SecondsPerDay, true) else a
    case ResetPressed => Reference(0, a.running)
    case StopPressed => Reference(a.seconds, false)
    case ResumePressed => Reference(a.seconds, true)
  }

  function ReferenceRun(a: Reference, es: seq<Event>): Reference
    decreases |es|
  {
    if es == [] then a else ReferenceRun(ReferenceStep(a, es[0]), es[1..])
  }

  /** Every interrupt keeps the digits valid and does to the shown time and
      the running state what the reference clock does. */
  lemma StepRefines(m: Machine, e: Event)
    requires Valid(m.clock)
    ensures Valid(Step(m, e).clock)
    ensures Abstract(Step(m, e)) == ReferenceStep(Abstract(m), e)
  {
    match e
    case CompareMatch => CompareMatchRefines(m);
    case ResetPressed => ResetRefines(m);
    case StopPressed => StopRefines(m);
    case ResumePressed => ResumeRefines(m);
  }

  lemma CompareMatchRefines(m: Machine)
    requires Valid(m.clock)
    ensures Valid(Step(m, CompareMatch).clock)
    ensures Abstract(Step(m, CompareMatch)) == ReferenceStep(Abstract(m), CompareMatch)
  {
    if Running(m.control) {
      TickAdvancesOneSecond(m.clock);
    }
  }

  lemma ResetRefines(m: Machine)
    requires Valid(m.clock)
    ensures Valid(Step(m, ResetPressed).clock)
    ensures Abstract(Step(m, ResetPressed)) == ReferenceStep(Abstract(m), ResetPressed)
  {
  }

  lemma StopRefines(m: Machine)
    requires Valid(m.clock)
    ensures Valid(Step(m, StopPressed).clock)
    ensures Abstract(Step(m, StopPressed)) == ReferenceStep(Abstract(m), StopPressed)
  {
  }

  lemma ResumeRefines(m: Machine)
    requires Valid(m.clock)
    ensures Valid(Step(m, ResumePressed).clock)
    ensures Abstract(Step(m, ResumePressed)) == ReferenceStep(Abstract(m), ResumePressed)
  {
  }

  /** Any sequence of interrupts from a valid machine keeps the digits
      valid and agrees with the reference clock. */
  lemma {:induction false} RunRefines(m: Machine, es: seq<Event>)
    requires Valid(m.clock)
    ensures Valid(Run(m, es).clock)
    ensures Abstract(Run(m, es)) == ReferenceRun(Abstract(m), es)
    decreases |es|
  {
    if es != [] {
      StepRefines(m, es[0]);
      RunRefines(Step(m, es[0]), es[1..]);
    }
  }

  /** Every state reachable from power-on shows a valid time of day. */
  lemma ReachableValid(es: seq<Event>)
    ensures Valid(Run(PowerOn(), es).clock)
    ensures Decode(Run(PowerOn(), es).clock) < SecondsPerDay
  {
    RunRefines(PowerOn(), es);
  }

  /** While stopped, compare-match events change nothing: the digits, the
      counter and the register stay frozen. */
  lemma {:induction false} StoppedIsFrozen(m: Machine, es: seq<Event>)
    requires !Running(m.control)
    requires forall i :: 0 <= i < |es| ==> es[i] == CompareMatch
    ensures Run(m, es) == m
    decreases |es|
  {
    if es != [] {
      assert Step(m, es[0]) == m;
      StoppedIsFrozen(m, es[1..]);
    }
  }

  /** Pressing stop and then letting any number of timer periods pass leaves
      the shown time where it was. */
  lemma StopFreezesClock(m: Machine, es: seq<Event>)
    requires forall i :: 0 <= i < |es| ==> es[i] == CompareMatch
    ensures Run(m, [StopPressed] + es).clock == m.clock
  {
    var stopped := Step(m, StopPressed);
    assert Run(m, [StopPressed] + es) == Run(stopped, es) by {
      assert ([StopPressed] + es)[1..] == es;
    }
    StoppedIsFrozen(stopped, es);
  }

  /** The stop and resume buttons change only the register: the digits
      and the counter stay as they were, and the timer is afterwards
      stopped, respectively running. */
  lemma ControlKeepsCounters(m: Machine)
    ensures Step(m, StopPressed).clock == m.clock && Step(m, StopPressed).elapsed == m.elapsed
    ensures !Running(Step(m, StopPressed).control)
    ensures Step(m, ResumePressed).clock == m.clock && Step(m, ResumePressed).elapsed == m.elapsed
    ensures Running(Step(m, ResumePressed).control)
  {
  }

  /** After resume, exactly one tick happens per timer period: `n` compare
      matches advance a valid clock by `n` seconds, modulo one day, and
      leave the counter and register alone. */
  lemma {:induction false} RunningTicks(m: Machine, n: nat)
    requires Running(m.control)
    ensures Run(m, seq(n, _ => CompareMatch)) == m.(clock := TickN(m.clock, n))
    decreases n
  {
    if n > 0 {
      var es := seq(n, _ => CompareMatch);
      var rest := seq(n - 1, _ => CompareMatch);
      assert es[1..] == rest;
      var next := Step(m, CompareMatch);
      RunningTicks(next, n - 1);
      TickNFirst(m.clock, n);
    }
  }

  /** Resume followed by `n` timer periods performs exactly `n` ticks. */
  lemma ResumeThenTicks(m: Machine, n: nat)
    ensures Run(m, [ResumePressed] + seq(n, _ => CompareMatch)).clock == TickN(m.clock, n)
  {
    var es := seq(n, _ => CompareMatch);
    var resumed := Step(m, ResumePressed);
    assert Run(m, [ResumePressed] + es) == Run(resumed, es) by {
      assert ([ResumePressed] + es)[1..] == es;
    }
    RunningTicks(resumed, n);
  }

  /** So after resume the shown time moves on by one second per timer
      period, modulo one day. */
  lemma ResumeAdvancesTime(m: Machine, n: nat)
    requires Valid(m.clock)
    ensures Decode(Run(m, [ResumePressed] + seq(n, _ => CompareMatch)).clock)
         == (Decode(m.clock) + n) % SecondsPerDay
  {
    ResumeThenTicks(m, n);
    TickNAdvances(m.clock, n);
  }

  /** Peeling the first of `n` ticks off the front instead of the back. */
  lemma {:induction false} TickNFirst(c: Clock, n: nat)
    requires n > 0
    ensures TickN(c, n) == TickN(Tick(c), n - 1)
    decreases n
  {
    if n > 1 {
      TickNFirst(c, n - 1);
    }
  }
}
