/** settimeofday and gettimeofday: alt_settod.c and alt_gettod.c. */
module TimeOfDay {
  import opened Words

  const US: int := 1_000_000

  type Signed = x: int | -0x8000_0000 <= x < 0x8000_0000

  /** Conversion of a 32-bit word, or of any integer modulo 2^32, to a signed 32-bit field. */
  function ToSigned(x: int): Signed {
    if Wrap(x) < 0x8000_0000 then Wrap(x) else Wrap(x) - 0x1_0000_0000
  }

  datatype TimeVal = TimeVal(sec: Signed, usec: Signed)

  datatype Zone = Zone(minutesWest: int, dstTime: int)

  /** A time in microseconds. */
  function Micros(t: TimeVal): int {
    t.sec * US + t.usec
  }

  /** A normalised time that is not before the epoch. */
  predicate Proper(t: TimeVal) {
    0 <= t.sec && 0 <= t.usec < US
  }

  /** The microseconds of one tick, for a rate that divides a million. */
  function TickMicros(rate: Word): int
    requires rate > 0
  {
    US / rate
  }

  /** The 32-bit product in settimeofday agrees with the 64-bit one in gettimeofday, modulo a second. */
  predicate ExactProduct(nticks: Word, rate: Word)
    requires rate > 0
  {
    Wrap(nticks * TickMicros(rate)) % US == (nticks * TickMicros(rate)) % US
  }

  /** The first loop of gettimeofday: borrow seconds, or clamp to zero. */
  function Borrow(sec: Signed, usec: int): (r: (Signed, int, bool))
    ensures r.1 >= 0
    decreases if usec < 0 then -usec else 0
  {
    if usec >= 0 then (sec, usec, false)
    else if sec <= 0 then (0, 0, true)
    else Borrow(sec - 1, usec + US)
  }

  /** The second loop: carry into the seconds. */
  function Carry(sec: Signed, usec: nat): (r: (Signed, int))
    ensures 0 <= r.1 < US
    decreases usec
  {
    if usec < US then (sec, usec) else Carry(ToSigned(sec + 1), usec - US)
  }

  function Normal(t: TimeVal): (TimeVal, bool) {
    var (sec, usec, clamped) := Borrow(t.sec, t.usec);
    var (s, u) := Carry(sec, usec);
    (TimeVal(s, u), clamped)
  }

  /** The time gettimeofday starts from before normalisation. */
  function Raw(reset: TimeVal, nticks: Word, rate: Word): TimeVal
    requires rate > 0
  {
    TimeVal(ToSigned(reset.sec + nticks / rate), ToSigned(reset.usec + nticks * TickMicros(rate) % US))
  }

  function ResetFor(t: TimeVal, nticks: Word, rate: Word): TimeVal
    requires rate > 0
  {
    TimeVal(ToSigned(t.sec - nticks / rate), ToSigned(t.usec - Wrap(nticks * TickMicros(rate)) % US))
  }

  class Clock {
    var rate: Word
    var reset: TimeVal
    var zone: Zone

    constructor (rate: Word)
      ensures this.rate == rate && reset == TimeVal(0, 0) && zone == Zone(0, 0)
    {
      this.rate, reset, zone := rate, TimeVal(0, 0), Zone(0, 0);
    }

    /** ALT_SETTIMEOFDAY at tick counter `nticks`; false is the ENOSYS error. */
    method Set(t: TimeVal, tz: Zone, nticks: Word) returns (ok: bool)
      modifies this`reset, this`zone
      ensures ok == (rate != 0)
      ensures if ok then zone == tz && reset == ResetFor(t, nticks, rate) else zone == old(zone) && reset == old(reset)
    {
      if rate == 0 {
        return false;
      }
      reset := TimeVal(ToSigned(t.sec - nticks / rate), ToSigned(t.usec - Wrap(nticks * (US / rate)) % US));
      zone := tz;
      ok := true;
    }

    /** ALT_GETTIMEOFDAY; false is the ENOTSUP error. `clamped` tells whether the time was clamped to zero. */
    method Get(nticks: Word) returns (ok: bool, t: TimeVal, tz: Zone, clamped: bool)
      ensures ok == (rate != 0)
      ensures ok ==> tz == zone && (t, clamped) == Normal(Raw(reset, nticks, rate))
    {
      t, tz, clamped, ok := TimeVal(0, 0), zone, false, rate != 0;
      if ok {
        var raw := Raw(reset, nticks, rate);
        var sec: Signed, usec: int := raw.sec, raw.usec;
        ghost var b := Borrow(sec, usec);
        while usec < 0
          invariant !clamped ==> Borrow(sec, usec) == b
          invariant clamped ==> (sec, usec, true) == b
          decreases -usec
        {
          if sec <= 0 {
            sec, usec, clamped := 0, 0, true;
            break;
          }
          sec, usec := sec - 1, usec + US;
        }
        ghost var c := Carry(sec, usec);
        while usec >= US
          invariant usec >= 0 && Carry(sec, usec) == c
        {
          sec, usec := ToSigned(sec + 1), usec - US;
        }
        t := TimeVal(sec, usec);
      }
    }
  }

  // ---------------------------------------------------------------------------------------------
  // Exactness.
  // ---------------------------------------------------------------------------------------------

  /** Below a time of 2^31 seconds the carry loop divides. */
  lemma {:induction false} CarryDivides(sec: Signed, usec: nat)
    requires sec + usec / US < 0x8000_0000
    ensures Carry(sec, usec) == (sec + usec / US, usec % US)
    decreases usec
  {
    if usec >= US {
      assert usec / US == (usec - US) / US + 1 && usec % US == (usec - US) % US;
      assert usec / US >= 1;
      assert ToSigned(sec + 1) == sec + 1;
      CarryDivides(sec + 1, usec - US);
    }
  }

  /** The loops keep the number of microseconds, and clamp exactly a fraction below a second that is not positive. */
  lemma NormalIsExact(t: TimeVal)
    requires -US < t.usec && t.sec + t.usec / US < 0x8000_0000
    ensures var (r, clamped) := Normal(t);
      && 0 <= r.usec < US && (clamped <==> t.usec < 0 && t.sec <= 0)
      && Micros(r) == if clamped then 0 else Micros(t)
  {
    if t.usec >= 0 {
      CarryDivides(t.sec, t.usec);
    } else if t.sec > 0 {
      assert Borrow(t.sec, t.usec) == (t.sec - 1, t.usec + US, false);
      CarryDivides(t.sec - 1, t.usec + US);
    }
  }

  /** Whole seconds and the rest of n ticks, for a rate that divides a million. */
  lemma TicksSplit(n: nat, rate: nat)
    requires rate > 0 && US % rate == 0
    ensures (n / rate) * US + n * (US / rate) % US == n * (US / rate)
  {
    var u, q, r := US / rate, n / rate, n % rate;
    Division(n, rate);
    Division(US, rate);
    SplitProduct(q, r, rate, u);
    Remainder(q, r * u);
  }

  lemma Division(n: nat, d: nat)
    requires d > 0
    ensures n == d * (n / d) + n % d && 0 <= n / d && 0 <= n % d < d
  {
  }

  lemma SplitProduct(q: nat, r: nat, rate: nat, u: nat)
    requires rate * u == US && r < rate && 0 < u
    ensures (rate * q + r) * u == q * US + r * u && 0 <= r * u < US
  {
    assert (rate * q + r) * u == q * (rate * u) + r * u;
    assert rate * u == r * u + (rate - r) * u;
    Grows(u, 0, r);
    Grows(u, 1, rate - r);
  }

  lemma Remainder(q: nat, r: nat)
    requires r < US
    ensures (q * US + r) % US == r
  {
  }

  /** The set time plus the ticks since. */
  function Elapsed(t: TimeVal, n0: Word, n: Word, rate: Word): int
    requires rate > 0
  {
    Micros(t) + (n - n0) * TickMicros(rate)
  }

  /** By how much settimeofday's 32-bit product is off. */
  function ProductSlip(n0: Word, rate: Word): int
    requires rate > 0
  {
    (n0 * TickMicros(rate)) % US - Wrap(n0 * TickMicros(rate)) % US
  }

  /** What n ticks count for: whole seconds, and microseconds below a second. */
  function ShownTicks(n: Word, rate: Word): int
    requires rate > 0
  {
    n / rate * US + n * TickMicros(rate) % US
  }

  /** The time that gettimeofday has before it is normalised. */
  function Total(t: TimeVal, n0: Word, n: Word, rate: Word): int
    requires rate > 0
  {
    Micros(t) + ShownTicks(n, rate) - ShownTicks(n0, rate) + ProductSlip(n0, rate)
  }

  function Seconds(t: TimeVal, n0: Word, n: Word, rate: Word): int
    requires rate > 0
  {
    t.sec + n / rate - n0 / rate
  }

  /** A normalised time was set, and the seconds fit in the signed field. */
  predicate InRange(t: TimeVal, n0: Word, n: Word, rate: Word)
    requires rate > 0
  {
    && 0 <= t.usec < US
    && -0x8000_0000 <= Seconds(t, n0, n, rate) < 0x8000_0000 && Total(t, n0, n, rate) < 0x8000_0000 * US
  }

  /** What is left of the total below whole seconds; more than a second below or above. */
  function Fraction(t: TimeVal, n0: Word, n: Word, rate: Word): int
    requires rate > 0
  {
    Total(t, n0, n, rate) - Seconds(t, n0, n, rate) * US
  }

  lemma RawIsTotal(t: TimeVal, n0: Word, n: Word, rate: Word)
    requires rate > 0 && InRange(t, n0, n, rate)
    ensures var raw := Raw(ResetFor(t, n0, rate), n, rate);
      Micros(raw) == Total(t, n0, n, rate) && -US < raw.usec < 2 * US && raw.sec == Seconds(t, n0, n, rate)
  {
    Quotient(n0, rate);
    Quotient(n, rate);
    TickProduct(n0, rate);
    TickProduct(n, rate);
    hide TickMicros;
    var q0, q, p0, p := n0 / rate, n / rate, n0 * TickMicros(rate), n * TickMicros(rate);
    RawParts(t, q0, q, Wrap(p0) % US, p % US);
    TotalParts(t, q0, q, p0 % US, Wrap(p0) % US, p % US);
    hide Wrap, ToSigned;
  }

  /** The total, with the quotients and remainders as numbers of their own. */
  lemma TotalParts(t: TimeVal, q0: nat, q: nat, a0: nat, a: nat, b: nat)
    ensures (t.sec + q - q0) * US + (t.usec - a + b) == Micros(t) + (q * US + b) - (q0 * US + a0) + (a0 - a)
  {
  }

  lemma TickProduct(n: nat, rate: Word)
    requires rate > 0
    ensures n * TickMicros(rate) >= 0
  {
    Product(n, TickMicros(rate));
  }

  /** Subtracting at set time and adding at get time, both fields modulo 2^32. */
  lemma RawParts(t: TimeVal, q0: nat, q: nat, a: nat, b: nat)
    requires 0 <= t.usec < US && a < US && b < US && -0x8000_0000 <= t.sec + q - q0 < 0x8000_0000
    ensures TimeVal(ToSigned(ToSigned(t.sec - q0) + q), ToSigned(ToSigned(t.usec - a) + b))
        == TimeVal(t.sec + q - q0, t.usec - a + b)
  {
    SignedSum(t.sec, q0, q);
    assert ToSigned(t.usec - a) == t.usec - a && ToSigned(t.usec - a + b) == t.usec - a + b;
  }

  lemma Quotient(n: nat, d: nat)
    requires d > 0
    ensures n / d >= 0
  {
  }

  lemma SignedSum(sec: int, a: nat, b: nat)
    requires -0x8000_0000 <= sec + b - a < 0x8000_0000
    ensures ToSigned(ToSigned(sec - a) + b) == sec - a + b
  {
  }

  /**
   For every tick rate, and whether or not the tick counter has wrapped since the time was set, gettimeofday
   returns the total, normalised. It returns zero instead if the fraction is negative and the seconds are not
   positive, which from the epoch on is when the total is negative.
   */
  lemma SetThenGet(t: TimeVal, n0: Word, n: Word, rate: Word)
    requires rate > 0 && InRange(t, n0, n, rate)
    ensures var (r, clamped) := Normal(Raw(ResetFor(t, n0, rate), n, rate));
      && 0 <= r.usec < US && Micros(r) == (if clamped then 0 else Total(t, n0, n, rate))
      && (clamped <==> Seconds(t, n0, n, rate) <= 0 && Fraction(t, n0, n, rate) < 0)
      && (0 <= Seconds(t, n0, n, rate) ==> Proper(r) && (clamped <==> Total(t, n0, n, rate) < 0))
  {
    RawIsTotal(t, n0, n, rate);
    hide Total, Seconds;
    NormalIsExact(Raw(ResetFor(t, n0, rate), n, rate));
  }

  /** A rate that divides a million counts every tick for its full length. */
  lemma TotalIsElapsed(t: TimeVal, n0: Word, n: Word, rate: Word)
    requires rate > 0 && US % rate == 0
    ensures Total(t, n0, n, rate) == Elapsed(t, n0, n, rate) + ProductSlip(n0, rate)
  {
    TicksSplit(n0, rate);
    TicksSplit(n, rate);
    var u := TickMicros(rate);
    assert (n - n0) * u == n * u - n0 * u;
  }

  /**
   With such a rate, and no wrap of the tick counter since the time was set, gettimeofday returns the set time
   plus the elapsed ticks if and only if settimeofday's 32-bit product was exact, or the clamp makes up for
   its error at the epoch itself.
   */
  lemma ElapsedIsShown(t: TimeVal, n0: Word, n: Word, rate: Word)
    requires rate > 0 && US % rate == 0 && InRange(t, n0, n, rate) && n0 <= n
    requires 0 <= Seconds(t, n0, n, rate) && 0 <= Elapsed(t, n0, n, rate)
    ensures var (r, clamped) := Normal(Raw(ResetFor(t, n0, rate), n, rate));
      && (ExactProduct(n0, rate) ==> Micros(r) == Elapsed(t, n0, n, rate) && !clamped)
      && (Micros(r) == Elapsed(t, n0, n, rate)
          <==> ExactProduct(n0, rate) || (Elapsed(t, n0, n, rate) == 0 && ProductSlip(n0, rate) < 0))
  {
    SetThenGet(t, n0, n, rate);
    TotalIsElapsed(t, n0, n, rate);
    hide Total, Seconds, Elapsed;
  }

  lemma Product(a: nat, b: nat)
    ensures a * b >= 0
  {
  }

  /** The product is exact while it fits in 32 bits. */
  lemma FittingProduct(n0: Word, rate: Word)
    requires rate > 0 && n0 * TickMicros(rate) < 0x1_0000_0000
    ensures ExactProduct(n0, rate)
  {
    Product(n0, TickMicros(rate));
    hide TickMicros;
    var x := n0 * TickMicros(rate);
    assert Wrap(x) == x;
  }

  /** At 1000 ticks a second the product first overflows after 71 minutes, and the time set then is off by 967296 us. */
  lemma OverflowAfterAnHour()
    ensures !ExactProduct(4_294_968, 1000) && ProductSlip(4_294_968, 1000) == 967_296
  {
  }

  /** Later reads never show an earlier time, however the time was set, if the rate divides a million. */
  lemma Monotone(t: TimeVal, n0: Word, n1: Word, n2: Word, rate: Word)
    requires rate > 0 && US % rate == 0 && n1 <= n2 && InRange(t, n0, n1, rate) && InRange(t, n0, n2, rate)
    requires 0 <= Seconds(t, n0, n1, rate) && 0 <= Seconds(t, n0, n2, rate)
    ensures Micros(Normal(Raw(ResetFor(t, n0, rate), n1, rate)).0)
            <= Micros(Normal(Raw(ResetFor(t, n0, rate), n2, rate)).0)
  {
    Product(n2 - n1, TickMicros(rate));
    assert (n2 - n0) * TickMicros(rate) - (n1 - n0) * TickMicros(rate) == (n2 - n1) * TickMicros(rate);
    SetThenGet(t, n0, n1, rate);
    SetThenGet(t, n0, n2, rate);
    TotalIsElapsed(t, n0, n1, rate);
    TotalIsElapsed(t, n0, n2, rate);
    hide Total, Raw, ResetFor, Normal, Seconds;
  }

  /**
   Before the epoch they may: two seconds before it, set at tick 1 of a clock with 1000 ticks a second, tick 1000
   shows the epoch, and tick 1001 a second before it.
   */
  lemma BackwardsBeforeTheEpoch()
    ensures var t := TimeVal(-2, 0);
      && InRange(t, 1, 1000, 1000) && InRange(t, 1, 1001, 1000)
      && Micros(Normal(Raw(ResetFor(t, 1, 1000), 1000, 1000)).0) == 0
      && Micros(Normal(Raw(ResetFor(t, 1, 1000), 1001, 1000)).0) == -US
  {
    hide Normal, Raw, ResetFor;
    SetThenGet(TimeVal(-2, 0), 1, 1000, 1000);
    SetThenGet(TimeVal(-2, 0), 1, 1001, 1000);
  }

  /** What the ticks count for grows with the ticks exactly if the rate divides a million, or exceeds it. */
  ghost predicate NeverRunsBack(rate: Word)
    requires rate > 0
  {
    forall n1: Word, n2: Word :: n1 <= n2 ==> ShownTicks(n1, rate) <= ShownTicks(n2, rate)
  }

  lemma NeverRunsBackExactly(rate: Word)
    requires rate > 0
    ensures NeverRunsBack(rate) <==> US % rate == 0 || rate > US
  {
    if US % rate == 0 || rate > US {
      forall n1: Word, n2: Word | n1 <= n2
        ensures ShownTicks(n1, rate) <= ShownTicks(n2, rate)
      {
        if US % rate == 0 {
          TicksSplit(n1, rate);
          TicksSplit(n2, rate);
          Product(n2 - n1, TickMicros(rate));
          assert n2 * TickMicros(rate) - n1 * TickMicros(rate) == (n2 - n1) * TickMicros(rate);
        } else {
          FastTicks(n1, n2, rate);
        }
      }
    } else {
      var n := RunsBack(rate);
      assert ShownTicks(n, rate) > ShownTicks(n + 1, rate);
    }
  }

  lemma Grows(c: nat, x: int, y: int)
    requires x <= y
    ensures c * x <= c * y
  {
    Product(c, y - x);
    assert c * y == c * x + c * (y - x);
  }

  /** A tick shorter than a microsecond counts for nothing. */
  lemma FastTicks(n1: Word, n2: Word, rate: Word)
    requires rate > US && n1 <= n2
    ensures ShownTicks(n1, rate) <= ShownTicks(n2, rate)
  {
    assert TickMicros(rate) == 0;
    var q1, q2 := n1 / rate, n2 / rate;
    assert n1 == rate * q1 + n1 % rate && n2 == rate * q2 + n2 % rate;
    assert rate * (q2 + 1) == rate * q2 + rate;
    if q2 < q1 {
      Grows(rate, q2 + 1, q1);
    }
  }

  /** The tick that brings the microseconds of the second second back to the start. */
  lemma RunsBack(rate: Word) returns (n: Word)
    requires 0 < rate <= US && US % rate != 0
    ensures n + 1 < 0x1_0000_0000 && ShownTicks(n + 1, rate) < ShownTicks(n, rate)
  {
    var u, rem := TickMicros(rate), US % rate;
    Division(US, rate);
    Shorter(rate, u, rem);
    var j := (rem + u - 1) / u;
    Rounded(rem, u, j);
    n := rate + j - 1;
    ShownBelow(rate, u, rem, j - 1);
    ShownAbove(rate, u, rem, j);
  }

  /** In the second second, while the microseconds of the ticks stay below a million ... */
  lemma ShownBelow(rate: Word, u: int, rem: nat, m: nat)
    requires 0 < rate && u == TickMicros(rate) && US == rate * u + rem && m < rate <= US && m * u < rem
    ensures ShownTicks(rate + m, rate) == US + (US - (rem - m * u))
  {
    OneSecond(rate, m);
    TickProduct(m, rate);
    TickProduct(rate, rate);
    hide TickMicros;
    assert (rate + m) * u == rate * u + m * u;
    Remainder(0, US - (rem - m * u));
  }

  /** ... and when they have reached it. */
  lemma ShownAbove(rate: Word, u: int, rem: nat, m: nat)
    requires 0 < rate && u == TickMicros(rate) && US == rate * u + rem && m < rate <= US
    requires rem <= m * u < rem + u < US + rem
    ensures ShownTicks(rate + m, rate) == US + (m * u - rem)
  {
    OneSecond(rate, m);
    hide TickMicros;
    assert (rate + m) * u == rate * u + m * u;
    Remainder(1, m * u - rem);
  }

  lemma Shorter(rate: nat, u: nat, rem: nat)
    requires 0 < rem < rate <= US && US == rate * u + rem
    ensures 0 < u < US
  {
    assert rate * u == u * rate;
    if u >= US {
      Grows(u, 2, rate);
    }
  }

  /** Division rounded up. */
  lemma Rounded(x: nat, u: nat, j: int)
    requires u > 0 && x > 0 && j == (x + u - 1) / u
    ensures 1 <= j <= x && (j - 1) * u < x <= j * u < x + u
  {
    var r := (x + u - 1) % u;
    assert x + u - 1 == u * j + r;
    Grows(x, 1, u);
    assert u * (x + 1) == x * u + u;
    if j < 1 {
      Grows(u, j, 0);
    } else if j > x {
      Grows(u, x + 1, j);
    }
  }

  lemma OneSecond(rate: nat, j: nat)
    requires 0 < rate && j < rate
    ensures (rate + j) / rate == 1
  {
  }
}
