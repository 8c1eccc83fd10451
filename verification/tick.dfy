/**
 The compare-match interrupt handler of timer 1 (`ISR(TIMER1_COMPA_vect)`
 in Digital_Clock.c): a ripple-carry increment of the six digit counters,
 with the hour rolled over by an exact-equality trap on 24.
 */
module TickHandler {
  import opened ClockState

  /** One timer interrupt, in the order the handler tests the digits. The
      function is total: on an invalid state it does what the C code does,
      including the byte wrap-around of `++`. */
  function Tick(c: Clock): Clock
  {
    var s0 := Inc(c.sec.p0);
    if s0 != 10 then c.(sec := c.sec.(p0 := s0))
    else
      var s1 := Inc(c.sec.p1);
      if s1 != 6 then c.(sec := Digits(0, s1))
      else
        var m0 := Inc(c.min.p0);
        if m0 != 10 then c.(sec := Zero(), min := c.min.(p0 := m0))
        else
          var m1 := Inc(c.min.p1);
          if m1 != 6 then c.(sec := Zero(), min := Digits(0, m1))
          else
            var h0 := Inc(c.hr.p0);
            if h0 == 4 && c.hr.p1 == 2 then Midnight()
            else if h0 == 10 then Clock(Zero(), Zero(), Digits(0, Inc(c.hr.p1)))
            else Clock(Zero(), Zero(), c.hr.(p0 := h0))
  }

  /** `n` timer interrupts in a row. */
  function TickN(c: Clock, n: nat): Clock
  {
    if n == 0 then c else Tick(TickN(c, n - 1))
  }

  /** The seconds-ones digit counts on its own until it reaches 10: in any
      other case a tick changes nothing else. A digit already past 9, which
      the program never produces, is not caught by the test for 10; it
      climbs to 255 and the byte wraps it to 0. */
  lemma TickSecondsOnes(c: Clock)
    ensures c.sec.p0 != 9 ==> Tick(c) == c.(sec := c.sec.(p0 := (c.sec.p0 + 1) % 256))
    ensures c.sec.p0 == 9 ==> Tick(c).sec.p0 == 0
    ensures c.sec.p0 == 9 && c.sec.p1 < 5 ==> Tick(c) == c.(sec := Digits(0, c.sec.p1 + 1))
  {
  }

  /** From a valid state the tens digits of seconds and minutes stay in
      [0,5], the ones digits in [0,9], and the hour at most 23: no counter
      can reach the byte wrap-around. */
  lemma TickPreservesValid(c: Clock)
    requires Valid(c)
    ensures Valid(Tick(c))
  {
  }

  /** The main property: on a valid state a tick advances the displayed
      time by exactly one second, modulo one day. */
  lemma TickAdvancesOneSecond(c: Clock)
    requires Valid(c)
    ensures Valid(Tick(c))
    ensures Decode(Tick(c)) == (Decode(c) + 1) % SecondsPerDay
  {
    TickPreservesValid(c);
    TickCarries(c);
    WrapAtDay(Decode(c) + 1);
  }

  /** The same step without the modulus: one more second, except that
      23:59:59 is followed by 00:00:00. */
  lemma TickCarries(c: Clock)
    requires Valid(c)
    ensures Decode(Tick(c)) ==
      if Decode(c) == SecondsPerDay - 1 then 0 else Decode(c) + 1
  {
    var t := Tick(c);
    if c.sec.p0 < 9 {
      assert t == c.(sec := Digits(c.sec.p0 + 1, c.sec.p1));
    } else if c.sec.p1 < 5 {
      assert t == c.(sec := Digits(0, c.sec.p1 + 1));
    } else if c.min.p0 < 9 {
      assert t == c.(sec := Zero(), min := Digits(c.min.p0 + 1, c.min.p1));
    } else if c.min.p1 < 5 {
      assert t == c.(sec := Zero(), min := Digits(0, c.min.p1 + 1));
    } else if c.hr == Digits(3, 2) {
      assert t == Midnight();
    } else if c.hr.p0 == 9 {
      assert t == Clock(Zero(), Zero(), Digits(0, c.hr.p1 + 1));
    } else {
      assert t == Clock(Zero(), Zero(), Digits(c.hr.p0 + 1, c.hr.p1));
    }
  }

  /** On valid states the handler agrees with the reference clock that
      counts seconds modulo 86400 and shows them as hh:mm:ss. */
  lemma TickMatchesReference(c: Clock)
    requires Valid(c)
    ensures Tick(c) == Encode((Decode(c) + 1) % SecondsPerDay)
  {
    TickAdvancesOneSecond(c);
    EncodeDecode(Tick(c));
  }

  /** Hour rollover: at hh:59:59 the hours-ones digit is incremented; the
      trap on 2 and 4 turns 23:59:59 into 00:00:00, a carry out of the ones
      digit turns 09:59:59 into 10:00:00 and 19:59:59 into 20:00:00, and any
      other hour just goes up by one. */
  lemma TickHourRollover(c: Clock)
    requires Valid(c)
    requires c.min == Digits(9, 5) && c.sec == Digits(9, 5)
    ensures c.hr == Digits(3, 2) ==> Tick(c) == Midnight()
    ensures c.hr.p0 == 9 ==> Tick(c) == Clock(Zero(), Zero(), Digits(0, c.hr.p1 + 1))
    ensures c.hr != Digits(3, 2) && c.hr.p0 < 9 ==>
      Tick(c) == Clock(Zero(), Zero(), Digits(c.hr.p0 + 1, c.hr.p1))
  {
  }

  /** The displayed time becomes 00:00:00 exactly when it was 23:59:59. */
  lemma TickReachesMidnight(c: Clock)
    requires Valid(c)
    ensures Tick(c) == Midnight() <==> Decode(c) == SecondsPerDay - 1
  {
    var d := Decode(c);
    TickAdvancesOneSecond(c);
    DecodeInjective(Tick(c), Midnight());
    WrapAtDay(d + 1);
  }

  /** `n` ticks from a valid state advance the displayed time by `n`
      seconds modulo one day. */
  lemma {:induction false} TickNAdvances(c: Clock, n: nat)
    requires Valid(c)
    ensures Valid(TickN(c, n))
    ensures Decode(TickN(c, n)) == (Decode(c) + n) % SecondsPerDay
  {
    var d := Decode(c);
    if n == 0 {
      WrapAtDay(d);
    } else {
      TickNAdvances(c, n - 1);
      TickAdvancesCount(TickN(c, n - 1), d + (n - 1));
    }
  }

  /** One tick on a state showing `a` seconds modulo one day shows `a + 1`
      seconds modulo one day. */
  lemma TickAdvancesCount(c: Clock, a: nat)
    requires Valid(c) && Decode(c) == a % SecondsPerDay
    ensures Valid(Tick(c)) && Decode(Tick(c)) == (a + 1) % SecondsPerDay
  {
    TickAdvancesOneSecond(c);
    StepMod(a, Decode(c), Decode(Tick(c)));
  }

  /** From any valid state, `n` ticks give exactly the digits the
      reference clock shows `n` seconds later, modulo one day. */
  lemma TickNMatchesReference(c: Clock, n: nat)
    requires Valid(c)
    ensures TickN(c, n) == Encode((Decode(c) + n) % SecondsPerDay)
  {
    var t := TickN(c, n);
    TickNAdvances(c, n);
    EncodeDecode(t);
  }

  /** Starting from the power-on state, `n` ticks show `n` seconds modulo
      one day. */
  lemma TicksFromMidnight(n: nat)
    ensures TickN(Midnight(), n) == Encode(n % SecondsPerDay)
  {
    MidnightShowsZero();
    TickNMatchesReference(Midnight(), n);
  }

  /** 3661 ticks after power-on the display reads 01:01:01. */
  lemma OneHourOneMinuteOneSecond()
    ensures TickN(Midnight(), 3661) == Clock(Digits(1, 0), Digits(1, 0), Digits(1, 0))
  {
    TicksFromMidnight(3661);
    assert 3661 % SecondsPerDay == 3661;
    EncodeDecode(Clock(Digits(1, 0), Digits(1, 0), Digits(1, 0)));
  }

  /** Ten ticks from a seconds-ones digit of 0 bring it back to 0 and add
      exactly one to the seconds-tens digit, when that does not carry on. */
  lemma TenTicksCarryOnce(c: Clock)
    requires Valid(c) && c.sec.p0 == 0 && c.sec.p1 < 5
    ensures TickN(c, 10) == c.(sec := Digits(0, c.sec.p1 + 1))
  {
    var later, t := c.(sec := Digits(0, c.sec.p1 + 1)), TickN(c, 10);
    TickNAdvances(c, 10);
    assert Decode(later) == Decode(c) + 10 < SecondsPerDay;
    WrapAtDay(Decode(c) + 10);
    DecodeInjective(t, later);
  }

  /** Reducing a count of at most one day modulo the day only turns a full
      day into 0. */
  lemma WrapAtDay(n: nat)
    requires n <= SecondsPerDay
    ensures n % SecondsPerDay == if n == SecondsPerDay then 0 else n
  {
    if n == SecondsPerDay {
      DivMod(n, SecondsPerDay, 1, 0);
    } else {
      DivMod(n, SecondsPerDay, 0, n);
    }
  }

  /** One more second after `a` seconds, both reduced modulo a day. */
  lemma StepMod(a: nat, x: nat, y: nat)
    requires x == a % SecondsPerDay && y == (x + 1) % SecondsPerDay
    ensures y == (a + 1) % SecondsPerDay
  {
    var q, r := a / SecondsPerDay, a % SecondsPerDay;
    if r + 1 < SecondsPerDay {
      DivMod(a + 1, SecondsPerDay, q, r + 1);
    } else {
      DivMod(a + 1, SecondsPerDay, q + 1, 0);
    }
  }
}
