/** Day-to-second intervals (data.go, and the same code again in stmt.go):
    splitting a duration in nanoseconds and joining it again. */
module Interval {
  import opened Words

  const SECOND := 1_000_000_000
  const MINUTE := 60 * SECOND
  const HOUR := 60 * MINUTE
  const DAY := 24 * HOUR

  /** Go's division rounds toward zero, and the remainder has the sign of the dividend. */
  function Quo(a: int, b: int): int
    requires b > 0
  {
    if a >= 0 then a / b else -((-a) / b)
  }

  function Rem(a: int, b: int): int
    requires b > 0
  {
    if a >= 0 then a % b else -((-a) % b)
  }

  datatype IntervalDS = IntervalDS(days: int, hours: int, minutes: int, seconds: int, fseconds: int)

  /** All parts have the sign of the whole, and each stays below its unit. */
  predicate InUnits(ds: IntervalDS, dur: int) {
    && -24 < ds.hours < 24 && -60 < ds.minutes < 60 && -60 < ds.seconds < 60
    && -SECOND < ds.fseconds < SECOND && FitsInt32(ds.days)
    && (dur >= 0 ==> ds.days >= 0 && ds.hours >= 0 && ds.minutes >= 0 && ds.seconds >= 0 && ds.fseconds >= 0)
    && (dur <= 0 ==> ds.days <= 0 && ds.hours <= 0 && ds.minutes <= 0 && ds.seconds <= 0 && ds.fseconds <= 0)
  }

  function Total(ds: IntervalDS): int {
    ds.days * DAY + ds.hours * HOUR + ds.minutes * MINUTE + ds.seconds * SECOND + ds.fseconds
  }

  /** Quotient and remainder make up the dividend, and share its sign. */
  ghost predicate Divides(a: int, b: int, q: int, r: int) {
    && a == q * b + r && -b < r < b
    && (a >= 0 ==> q >= 0 && r >= 0) && (a <= 0 ==> q <= 0 && r <= 0)
  }

  lemma {:induction false} QuoRem(a: int, b: int)
    requires b > 0
    ensures Divides(a, b, Quo(a, b), Rem(a, b))
  {
    if a >= 0 {
      DivMod(a, b);
    } else {
      DivMod(-a, b);
      Negate((-a) / b, b);
    }
  }

  lemma {:induction false} DivMod(m: int, b: int)
    requires m >= 0 && b > 0
    ensures m == m / b * b + m % b && m / b >= 0
  {
  }

  lemma {:induction false} Negate(q: int, b: int)
    ensures -q * b == -(q * b)
  {
  }

  lemma {:induction false} AtLeast(k: int, d: int)
    requires k >= 1 && d > 0
    ensures k * d >= d
  {
    assert k * d == (k - 1) * d + d;
  }

  /** Only one quotient and remainder of one sign will do. */
  lemma {:induction false} DividesUnique(a: int, b: int, q: int, r: int, q': int, r': int)
    requires b > 0 && Divides(a, b, q, r) && Divides(a, b, q', r')
    ensures q == q' && r == r'
  {
    Difference(q, q', b);
    if q > q' {
      AtLeast(q - q', b);
    } else if q < q' {
      AtLeast(q' - q, b);
      Difference(q', q, b);
    }
  }

  lemma {:induction false} Difference(p: int, q: int, b: int)
    ensures (p - q) * b == p * b - q * b
  {
  }

  /** Taking the remainder by a multiple first changes nothing. */
  lemma {:induction false} RemOfRem(a: int, big: int, small: int, k: int)
    requires small > 0 && k > 0 && big == k * small
    ensures Rem(Rem(a, big), small) == Rem(a, small)
  {
    QuoRem(a, big);
    QuoRem(Rem(a, big), small);
    QuoRem(a, small);
    Chain(a, k, small, Quo(a, big), Rem(a, big), Quo(Rem(a, big), small), Rem(Rem(a, big), small));
    DividesUnique(a, small, Quo(a, small), Rem(a, small),
                  Quo(a, big) * k + Quo(Rem(a, big), small), Rem(Rem(a, big), small));
  }

  lemma {:induction false} Chain(a: int, k: int, small: int, q: int, r: int, s: int, t: int)
    requires small > 0 && k > 0 && Divides(a, k * small, q, r) && Divides(r, small, s, t)
    ensures Divides(a, small, q * k + s, t)
  {
    assert q * (k * small) == q * k * small;
    assert (q * k + s) * small == q * k * small + s * small;
    assert q >= 0 ==> q * k >= 0;
    assert q <= 0 ==> q * k <= 0;
  }

  /** `SetIntervalDS`.  Each remainder is taken of the value before the last one. */
  method Split(duration: int) returns (ds: IntervalDS)
    requires FitsInt64(duration)
    ensures InUnits(ds, duration)
    ensures Total(ds) == duration
  {
    hide Quo, Rem, Int32;
    var dur := duration;
    var rem := Rem(dur, DAY);
    var days := Int32(Quo(dur, DAY));
    QuoRem(dur, DAY);
    Kept(Quo(dur, DAY));
    RemOfRem(duration, DAY, HOUR, 24);
    RemOfRem(duration, DAY, MINUTE, 1440);
    dur, rem := rem, Rem(dur, HOUR);
    var hrs := Int32(Quo(dur, HOUR));
    QuoRem(dur, HOUR);
    Kept(Quo(dur, HOUR));
    RemOfRem(duration, HOUR, MINUTE, 60);
    RemOfRem(duration, HOUR, SECOND, 3600);
    dur, rem := rem, Rem(dur, MINUTE);
    var mins := Int32(Quo(dur, MINUTE));
    QuoRem(dur, MINUTE);
    Kept(Quo(dur, MINUTE));
    RemOfRem(duration, MINUTE, SECOND, 60);
    dur, rem := rem, Rem(dur, SECOND);
    var secs := Int32(Quo(dur, SECOND));
    QuoRem(dur, SECOND);
    Kept(Quo(dur, SECOND));
    var fsecs := Int32(rem);
    Kept(rem);
    ds := IntervalDS(days, hrs, mins, secs, fsecs);
  }

  lemma {:induction false} Kept(n: int)
    ensures FitsInt32(n) ==> Int32(n) == n
  {
  }

  /** `GetIntervalDS`: the sum, in the order in which it is evaluated. */
  function Join(ds: IntervalDS): int {
    ds.days * 24 * HOUR + ds.hours * HOUR + ds.minutes * MINUTE + ds.seconds * SECOND + ds.fseconds
  }

  /** No product and no partial sum leaves the 64-bit range. */
  predicate NoOverflow(ds: IntervalDS) {
    var a := ds.days * 24 * HOUR;
    var b := a + ds.hours * HOUR;
    var c := b + ds.minutes * MINUTE;
    var d := c + ds.seconds * SECOND;
    && FitsInt64(ds.days * 24) && FitsInt64(a) && FitsInt64(ds.hours * HOUR) && FitsInt64(b)
    && FitsInt64(ds.minutes * MINUTE) && FitsInt64(c) && FitsInt64(ds.seconds * SECOND) && FitsInt64(d)
    && FitsInt64(d + ds.fseconds)
  }

  /** Parts of one sign add up without overflow exactly when their total fits. */
  lemma {:induction false} JoinExact(ds: IntervalDS, dur: int)
    requires InUnits(ds, dur) && Total(ds) == dur
    ensures Join(ds) == dur
    ensures NoOverflow(ds) <==> FitsInt64(dur)
  {
    assert dur >= 0 || dur <= 0;
  }
}
