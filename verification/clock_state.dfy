/**
 The six digit counters of the clock (the globals `sec_p0` .. `hr_p1` of
 Digital_Clock.c, grouped in pairs by display field), their validity invariant, and the bijection between valid
 states and the seconds of a day.

 Each counter is an `unsigned char` in the source, so it is modelled as a
 byte-sized integer; the wrap-around of `++` on 255 is written out in `Inc`.
 */
module ClockState {

  /** The range of an `unsigned char`. */
  type uint8 = x: int | 0 <= x < 256

  /** Seconds in one day: the period of the clock. */
  const SecondsPerDay: nat := 86400

  /** C's `x++` on an `unsigned char`: arithmetic modulo 256. */
  function Inc(x: uint8): (r: uint8)
    ensures r == (x + 1) % 256
  {
    if x == 255 then 0 else x + 1
  }

  /** One two-digit field of the display: `p0` is its ones digit and `p1`
      its tens digit, as in the globals `sec_p0` and `sec_p1`. */
  datatype Digits = Digits(p0: uint8, p1: uint8)

  /** The six counters, grouped by the field of the display they drive:
      `c.sec.p0` is `sec_p0`, and so on up to `c.hr.p1`, which is `hr_p1`. */
  datatype Clock = Clock(sec: Digits, min: Digits, hr: Digits)

  /** A field showing 00. */
  function Zero(): Digits { Digits(0, 0) }

  /** The power-on state: C zero-initialises the six globals. */
  function Midnight(): Clock { Clock(Zero(), Zero(), Zero()) }

  /** The power-on state is valid and shows 00:00:00. */
  lemma MidnightShowsZero()
    ensures Valid(Midnight()) && Decode(Midnight()) == 0
  {
  }

  /** Every digit is a decimal digit of its field, the tens digits of the
      seconds and minutes stay below 6, and the hour is at most 23. */
  predicate Valid(c: Clock) {
    && c.sec.p0 <= 9 && c.sec.p1 <= 5
    && c.min.p0 <= 9 && c.min.p1 <= 5
    && c.hr.p0 <= 9 && c.hr.p1 <= 2
    && c.hr.p1 * 10 + c.hr.p0 <= 23
  }

  /** The time shown on the display, as seconds since midnight. */
  function Decode(c: Clock): (n: nat)
    ensures Valid(c) ==> n < SecondsPerDay
  {
    var h, m, s := c.hr.p1 * 10 + c.hr.p0, c.min.p1 * 10 + c.min.p0, c.sec.p1 * 10 + c.sec.p0;
    (h * 60 + m) * 60 + s
  }

  /** The valid digit state that shows `n` seconds after midnight. */
  function Encode(n: nat): (c: Clock)
    requires n < SecondsPerDay
    ensures Valid(c)
    ensures Decode(c) == n
  {
    var h := n / 3600;
    var m := n % 3600 / 60;
    var s := n % 60;
    SplitSecondsOfDay(n);
    Clock(Digits(s % 10, s / 10), Digits(m % 10, m / 10), Digits(h % 10, h / 10))
  }

  /** Decoding a valid state and encoding the result gives the same digits
      back: `Decode` is injective on valid states. */
  lemma EncodeDecode(c: Clock)
    requires Valid(c)
    ensures Encode(Decode(c)) == c
  {
    var n := Decode(c);
    var h, m, s := c.hr.p1 * 10 + c.hr.p0, c.min.p1 * 10 + c.min.p0, c.sec.p1 * 10 + c.sec.p0;
    DigitsOf(s, c.sec.p1, c.sec.p0);
    DigitsOf(m, c.min.p1, c.min.p0);
    DigitsOf(h, c.hr.p1, c.hr.p0);
    SplitMinutesSeconds(n, h, m, s);
  }

  /** Two valid states that show the same time are the same state. */
  lemma DecodeInjective(a: Clock, b: Clock)
    requires Valid(a) && Valid(b)
    ensures Decode(a) == Decode(b) <==> a == b
  {
    if Decode(a) == Decode(b) {
      EncodeDecode(a);
      EncodeDecode(b);
    }
  }

  /** A two-digit value splits back into the tens and ones digits it was
      built from. */
  lemma DigitsOf(v: nat, tens: nat, ones: nat)
    requires ones <= 9 && v == tens * 10 + ones
    ensures v / 10 == tens && v % 10 == ones
  {
  }

  /** Seconds since midnight split back into hour, minute and second. */
  lemma SplitMinutesSeconds(n: nat, h: nat, m: nat, s: nat)
    requires m < 60 && s < 60
    requires n == (h * 60 + m) * 60 + s
    ensures n / 3600 == h && n % 3600 / 60 == m && n % 60 == s
  {
    DivMod(n, 3600, h, m * 60 + s);
    DivMod(m * 60 + s, 60, m, s);
    DivMod(n, 60, h * 60 + m, s);
  }

  /** The hour, minute and second `Encode` extracts from `n` rebuild `n`,
      and the hour is below 24. */
  lemma SplitSecondsOfDay(n: nat)
    requires n < SecondsPerDay
    ensures n / 3600 < 24 && n % 3600 / 60 < 60
    ensures n == (n / 3600 * 60 + n % 3600 / 60) * 60 + n % 60
  {
    var h, rest := n / 3600, n % 3600;
    var m, s := rest / 60, rest % 60;
    assert n == h * 3600 + rest;
    assert rest == m * 60 + s;
    DivMod(n, 60, h * 60 + m, s);
    if h >= 24 {
      MulAtLeast(h - 23, 3600);
    }
  }

  /** Quotient and remainder are determined by any decomposition
      `n == q * d + r` with `0 <= r < d`. */
  lemma DivMod(n: int, d: int, q: int, r: int)
    requires d > 0 && 0 <= r < d && n == q * d + r
    ensures n / d == q && n % d == r
  {
    var q', r' := n / d, n % d;
    assert (q - q') * d == r' - r by {
      assert (q - q') * d == q * d - q' * d;
    }
    if q' < q {
      MulAtLeast(q - q', d);
    } else if q' > q {
      assert (q' - q) * d == r - r' by {
        assert (q' - q) * d == q' * d - q * d;
      }
      MulAtLeast(q' - q, d);
    }
  }

  /** A positive multiple of `d` is at least `d`. */
  lemma MulAtLeast(a: int, d: int)
    requires a >= 1 && d > 0
    ensures a * d >= d
  {
    assert a * d == (a - 1) * d + d;
    assert (a - 1) * d >= 0;
  }
}
