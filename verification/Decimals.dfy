/** Decimal numerals and the numbers they denote.

    Every codec of the project is measured against the real numbers defined
    here: `Mag` gives the value of a row of decimal digits with a decimal point
    somewhere, `TextValue` the value of a decimal text.
 */
module Decimals {

  type Digit = d: int | 0 <= d < 10

  // ----- powers of ten -----

  function Pow10(k: int): real
    decreases if k < 0 then -k else k
  {
    if k == 0 then 1.0 else if k > 0 then 10.0 * Pow10(k - 1) else Pow10(k + 1) / 10.0
  }

  lemma {:induction false} Pow10Step(k: int)
    ensures Pow10(k + 1) == 10.0 * Pow10(k)
  {
  }

  lemma {:induction false} Pow10Positive(k: int)
    ensures Pow10(k) > 0.0
    decreases if k < 0 then -k else k
  {
    if k > 0 {
      Pow10Positive(k - 1);
    } else if k < 0 {
      Pow10Positive(k + 1);
    }
  }

  lemma {:induction false} Pow10Grows(a: int, b: int)
    requires a <= b
    ensures Pow10(a) <= Pow10(b)
    decreases b - a
  {
    if a < b {
      Pow10Grows(a, b - 1);
      Pow10Positive(b - 1);
      Pow10Step(b - 1);
    }
  }

  lemma {:induction false} Pow10Strict(a: int, b: int)
    requires a < b
    ensures Pow10(a) < Pow10(b)
  {
    Pow10Grows(a, b - 1);
    Pow10Positive(b - 1);
    Pow10Step(b - 1);
  }

  // ----- multiples -----

  /** n times x, by repeated addition (`TimesIsProduct`). */
  function Times(n: nat, x: real): real {
    if n == 0 then 0.0 else x + Times(n - 1, x)
  }

  lemma {:induction false} TimesIsProduct(n: nat, x: real)
    ensures Times(n, x) == n as real * x
  {
    if n > 0 {
      TimesIsProduct(n - 1, x);
      var k := (n - 1) as real;
      assert n as real == k + 1.0 && (k + 1.0) * x == k * x + x;
    }
  }

  lemma {:induction false} TimesAdd(m: nat, n: nat, x: real)
    ensures Times(m + n, x) == Times(m, x) + Times(n, x)
  {
    if m > 0 {
      TimesAdd(m - 1, n, x);
    }
  }

  lemma {:induction false} TimesPositive(n: nat, x: real)
    requires x > 0.0
    ensures 0.0 <= Times(n, x)
    ensures n > 0 ==> x <= Times(n, x)
  {
    if n > 0 {
      TimesPositive(n - 1, x);
    }
  }

  lemma {:induction false} TimesTen(n: nat, x: real)
    ensures Times(10 * n, x) == Times(n, 10.0 * x)
  {
    if n > 0 {
      TimesAdd(10, 10 * (n - 1), x);
      TimesTen(n - 1, x);
      TimesIsProduct(10, x);
    }
  }

  lemma {:induction false} TimesStrict(n: nat, x: real, y: real)
    requires x < y && n > 0
    ensures Times(n, x) < Times(n, y)
  {
    if n > 1 {
      TimesStrict(n - 1, x, y);
    }
  }

  /** A multiple of a power of ten tells the power. */
  lemma {:induction false} ScaleUnique(n: nat, a: int, b: int)
    ensures Times(n, Pow10(a)) == Times(n, Pow10(b)) <==> n == 0 || a == b
  {
    if n > 0 && a < b {
      Pow10Strict(a, b);
      TimesStrict(n, Pow10(a), Pow10(b));
    } else if n > 0 && b < a {
      Pow10Strict(b, a);
      TimesStrict(n, Pow10(b), Pow10(a));
    }
  }

  lemma {:induction false} UnitGap(d: nat, e: nat, unit: real)
    requires unit > 0.0 && d < e
    ensures Times(d, unit) + unit <= Times(e, unit)
  {
    TimesAdd(d, e - d, unit);
    TimesPositive(e - d, unit);
  }

  // ----- digit rows -----

  /** The value of 0.d0 d1 d2 ... times ten to the `point`. */
  function Mag(ds: seq<Digit>, point: int): real {
    if ds == [] then 0.0
    else Times(ds[0], Pow10(point - 1)) + Mag(ds[1..], point - 1)
  }

  lemma {:induction false} MagConcat(a: seq<Digit>, b: seq<Digit>, point: int)
    ensures Mag(a + b, point) == Mag(a, point) + Mag(b, point - |a|)
  {
    if a == [] {
      assert a + b == b;
    } else {
      assert (a + b)[1..] == a[1..] + b;
      MagConcat(a[1..], b, point - 1);
    }
  }

  function Zeros(n: nat): (zs: seq<Digit>)
    ensures |zs| == n && forall i :: 0 <= i < n ==> zs[i] == 0
  {
    seq(n, _ => 0)
  }

  lemma {:induction false} MagZeros(zs: seq<Digit>, point: int)
    requires forall i :: 0 <= i < |zs| ==> zs[i] == 0
    ensures Mag(zs, point) == 0.0
  {
    if zs != [] {
      MagZeros(zs[1..], point - 1);
    }
  }

  /** Zeros in front move the point along, zeros behind change nothing. */
  lemma {:induction false} MagPadded(a: seq<Digit>, ds: seq<Digit>, b: seq<Digit>, point: int)
    requires forall i :: 0 <= i < |a| ==> a[i] == 0
    requires forall i :: 0 <= i < |b| ==> b[i] == 0
    ensures Mag(a + ds + b, point + |a|) == Mag(ds, point)
  {
    MagConcat(a + ds, b, point + |a|);
    MagConcat(a, ds, point + |a|);
    MagZeros(a, point + |a|);
    MagZeros(b, point - |ds|);
  }

  lemma {:induction false} FrontZeros(z: seq<Digit>, ds: seq<Digit>)
    requires forall i :: 0 <= i < |z| ==> z[i] == 0
    ensures Mag([0] + (z + ds), 1) == Mag(ds, -|z|)
  {
    MagPadded([0] + z, ds, [], -|z|);
    assert [0] + z + ds + [] == [0] + (z + ds);
  }

  lemma {:induction false} MagBounds(ds: seq<Digit>, point: int)
    ensures 0.0 <= Mag(ds, point) < Pow10(point)
    ensures ds != [] && ds[0] != 0 ==> Pow10(point - 1) <= Mag(ds, point)
  {
    Pow10Positive(point);
    if ds != [] {
      MagBounds(ds[1..], point - 1);
      Pow10Step(point - 1);
      Pow10Positive(point - 1);
      TimesPositive(ds[0], Pow10(point - 1));
      TimesTen(1, Pow10(point - 1));
      UnitGap(ds[0], 10, Pow10(point - 1));
    }
  }

  lemma {:induction false} MagInjective(a: seq<Digit>, b: seq<Digit>, point: int)
    requires |a| == |b|
    requires Mag(a, point) == Mag(b, point)
    ensures a == b
  {
    if a != [] {
      MagBounds(a[1..], point - 1);
      MagBounds(b[1..], point - 1);
      LeadingDigitDecides(a[0], Mag(a[1..], point - 1), b[0], Mag(b[1..], point - 1), Pow10(point - 1));
      MagInjective(a[1..], b[1..], point - 1);
      assert a == [a[0]] + a[1..] && b == [b[0]] + b[1..];
    }
  }

  lemma {:induction false} LeadingDigitDecides(d: nat, r: real, e: nat, t: real, unit: real)
    requires unit > 0.0 && 0.0 <= r < unit && 0.0 <= t < unit
    requires Times(d, unit) + r == Times(e, unit) + t
    ensures d == e && r == t
  {
    if d < e {
      UnitGap(d, e, unit);
    } else if e < d {
      UnitGap(e, d, unit);
    }
  }

  /** Rows of different length but equal value differ by zeros at the end. */
  lemma {:induction false} MagSamePoint(a: seq<Digit>, b: seq<Digit>, point: int)
    requires |a| <= |b|
    requires Mag(a, point) == Mag(b, point)
    ensures b == a + Zeros(|b| - |a|)
  {
    var z := Zeros(|b| - |a|);
    MagPadded([], a, z, point);
    assert [] + a + z == a + z;
    MagInjective(a + z, b, point);
  }

  // ----- natural numbers as digit rows -----

  /** The number a row of digits spells. */
  function DigitsToNat(ds: seq<Digit>): nat {
    if ds == [] then 0 else 10 * DigitsToNat(ds[..|ds| - 1]) + ds[|ds| - 1]
  }

  /** The shortest row that spells `n`; a single zero for zero. */
  function NatToDigits(n: nat): (ds: seq<Digit>)
    ensures ds != [] && (ds[0] == 0 ==> n == 0 && ds == [0])
    ensures DigitsToNat(ds) == n
  {
    if n < 10 then
      assert [n as Digit][..0] == [];
      [n]
    else
      var front := NatToDigits(n / 10);
      assert (front + [n % 10])[..|front|] == front;
      front + [n % 10]
  }

  lemma {:induction false} DigitsToNatIsMag(ds: seq<Digit>, point: int)
    ensures Mag(ds, point) == Times(DigitsToNat(ds), Pow10(point - |ds|))
  {
    if ds != [] {
      var front, last := ds[..|ds| - 1], ds[|ds| - 1];
      assert ds == front + [last];
      DigitsToNatIsMag(front, point);
      MagAppend(front, last, point);
      ScaleUp(DigitsToNat(front), last, point - |ds|);
    }
  }

  lemma {:induction false} MagAppend(ds: seq<Digit>, d: Digit, point: int)
    ensures Mag(ds + [d], point) == Mag(ds, point) + Times(d, Pow10(point - |ds| - 1))
  {
    MagConcat(ds, [d], point);
    assert [d][1..] == [];
  }

  lemma {:induction false} ScaleUp(n: nat, d: nat, e: int)
    ensures Times(10 * n + d, Pow10(e)) == Times(n, Pow10(e + 1)) + Times(d, Pow10(e))
  {
    Pow10Step(e);
    TimesAdd(10 * n, d, Pow10(e));
    TimesTen(n, Pow10(e));
  }

  // ----- decimal texts -----

  predicate IsDigitChar(c: char) { '0' <= c <= '9' }

  predicate AllDigits(s: string) { forall i :: 0 <= i < |s| ==> IsDigitChar(s[i]) }

  function CharOf(d: Digit): (c: char)
    ensures IsDigitChar(c)
  {
    ('0' as int + d) as char
  }

  function DigitOf(c: char): (d: Digit)
    requires IsDigitChar(c)
    ensures CharOf(d) == c
  {
    c as int - '0' as int
  }

  function Chars(ds: seq<Digit>): (s: string)
    ensures |s| == |ds| && AllDigits(s)
    ensures forall i :: 0 <= i < |ds| ==> s[i] == CharOf(ds[i])
  {
    seq(|ds|, i requires 0 <= i < |ds| => CharOf(ds[i]))
  }

  function Digits(s: string): (ds: seq<Digit>)
    requires AllDigits(s)
    ensures |ds| == |s|
    ensures forall i :: 0 <= i < |s| ==> ds[i] == DigitOf(s[i])
    ensures Chars(ds) == s
  {
    seq(|s|, i requires 0 <= i < |s| => DigitOf(s[i]))
  }

  predicate IsNegative(s: string) { s != "" && s[0] == '-' }

  /** The text after an optional minus sign. */
  function Unsigned(s: string): string { if IsNegative(s) then s[1..] else s }

  /** Where `c` first occurs, or the length of the text. */
  function IndexOf(s: string, c: char): (i: nat)
    ensures i <= |s| && c !in s[..i] && (i < |s| ==> s[i] == c)
  {
    if s == "" then 0 else if s[0] == c then 0 else 1 + IndexOf(s[1..], c)
  }

  /** Digits before the point and digits after it. */
  function IntPart(s: string): string { Unsigned(s)[..IndexOf(Unsigned(s), '.')] }

  function FracPart(s: string): string {
    var u := Unsigned(s);
    var dot := IndexOf(u, '.');
    if dot < |u| then u[dot + 1..] else ""
  }

  /** An optional minus sign, digits, and at most one point; at least one digit. */
  predicate IsDecimal(s: string) {
    AllDigits(IntPart(s)) && AllDigits(FracPart(s)) && |IntPart(s)| + |FracPart(s)| > 0
  }

  function Signed(negative: bool, x: real): real { if negative then -x else x }

  /** The number a decimal text denotes. */
  function TextValue(s: string): real
    requires IsDecimal(s)
  {
    Signed(IsNegative(s), Mag(Digits(IntPart(s)) + Digits(FracPart(s)), |IntPart(s)|))
  }

  /** No redundant zero, sign or point: the way people write the number. */
  predicate IsCanonical(s: string) {
    && IsDecimal(s)
    && CanonicalInt(IntPart(s))
    && (FracPart(s) == "" ==> '.' !in s)
    && (FracPart(s) != "" ==> FracPart(s)[|FracPart(s)| - 1] != '0')
    && (IsNegative(s) ==> TextValue(s) != 0.0)
  }

  predicate CanonicalInt(s: string) { s == "0" || (s != "" && s[0] != '0') }

  function Sign(negative: bool): string { if negative then "-" else "" }

  /** Assembling a text from its parts. */
  function Numeral(negative: bool, whole: string, frac: string): string {
    Sign(negative) + whole + (if frac == "" then "" else "." + frac)
  }

  lemma {:induction false} DigitsHaveNoPoint(s: string, rest: string)
    requires AllDigits(s)
    ensures IndexOf(s + rest, '.') == |s| + IndexOf(rest, '.')
  {
    if s == "" {
      assert s + rest == rest;
    } else {
      assert (s + rest)[1..] == s[1..] + rest;
      assert IsDigitChar(s[0]);
      DigitsHaveNoPoint(s[1..], rest);
    }
  }

  lemma {:induction false} NumeralUnsigned(negative: bool, whole: string, frac: string)
    requires AllDigits(whole) && whole != ""
    ensures var s := Numeral(negative, whole, frac);
            IsNegative(s) == negative && Unsigned(s) == whole + (if frac == "" then "" else "." + frac)
  {
    var u := whole + (if frac == "" then "" else "." + frac);
    assert Numeral(negative, whole, frac) == Sign(negative) + u;
    assert IsDigitChar(whole[0]) && u[0] == whole[0];
  }

  /** The parts a text was assembled from are the parts read back from it. */
  lemma {:induction false} NumeralParts(negative: bool, whole: string, frac: string)
    requires AllDigits(whole) && AllDigits(frac) && whole != ""
    ensures var s := Numeral(negative, whole, frac);
            && IsNegative(s) == negative && IntPart(s) == whole && FracPart(s) == frac
            && (frac == "" ==> '.' !in s)
  {
    NumeralUnsigned(negative, whole, frac);
    var rest := if frac == "" then "" else "." + frac;
    DigitsHaveNoPoint(whole, rest);
    assert (whole + rest)[..|whole|] == whole;
  }

  /** What an assembled text denotes, and when it is canonical. */
  lemma {:induction false} NumeralValue(negative: bool, whole: string, frac: string, v: real)
    requires AllDigits(whole) && AllDigits(frac) && whole != ""
    requires Mag(Digits(whole) + Digits(frac), |whole|) == v
    ensures var s := Numeral(negative, whole, frac);
            && IsDecimal(s) && TextValue(s) == Signed(negative, v)
            && (CanonicalInt(whole) && (frac != "" ==> frac[|frac| - 1] != '0') && (v != 0.0 || !negative) ==>
                 IsCanonical(s))
  {
    hide Mag, IndexOf, Unsigned, IntPart, FracPart, Numeral;
    NumeralParts(negative, whole, frac);
  }

  lemma {:induction false} SplitAtPoint(sign: string, u: string, dot: nat)
    requires dot < |u| && u[dot] == '.'
    ensures '.' in sign + u && sign + u == sign + u[..dot] + ("." + u[dot + 1..])
  {
    assert (sign + u)[|sign| + dot] == '.';
  }

  lemma {:induction false} NumeralOfParts(s: string)
    requires FracPart(s) == "" ==> '.' !in s
    ensures s == Numeral(IsNegative(s), IntPart(s), FracPart(s))
  {
    hide IndexOf;
    var u, sign := Unsigned(s), Sign(IsNegative(s));
    assert s == sign + u;
    hide Unsigned, IsNegative, Sign;
    var dot := IndexOf(u, '.');
    if dot < |u| {
      SplitAtPoint(sign, u, dot);
      assert FracPart(s) == u[dot + 1..];
    } else {
      assert u[..dot] == u;
      assert FracPart(s) == "";
      assert s == sign + u + "";
    }
  }

  lemma {:induction false} ParseOfChars(ds: seq<Digit>)
    ensures Digits(Chars(ds)) == ds
  {
    forall i | 0 <= i < |ds| ensures Digits(Chars(ds))[i] == ds[i] {
      assert CharOf(Digits(Chars(ds))[i]) == CharOf(ds[i]);
    }
  }

  /** The length of a canonical whole part follows from the value. */
  lemma {:induction false} CanonicalWholeLength(a: string, f: string, b: string, g: string)
    requires AllDigits(a) && AllDigits(b) && AllDigits(f) && AllDigits(g)
    requires CanonicalInt(a) && CanonicalInt(b)
    requires Mag(Digits(a) + Digits(f), |a|) == Mag(Digits(b) + Digits(g), |b|)
    ensures |a| <= |b|
  {
    if |b| < |a| {
      assert a[0] != '0' && Digits(a)[0] != 0;
      var x := Digits(a) + Digits(f);
      MagBounds(x, |a|);
      MagBounds(Digits(b) + Digits(g), |b|);
      Pow10Grows(|b|, |a| - 1);
    }
  }

  /** Every number has at most one canonical text. */
  lemma {:induction false} CanonicalUnique(s: string, t: string)
    requires IsCanonical(s) && IsCanonical(t)
    requires TextValue(s) == TextValue(t)
    ensures s == t
  {
    hide Mag, IndexOf, IntPart, FracPart, Numeral, Unsigned, IsNegative, Digits;
    MagBounds(Digits(IntPart(s)) + Digits(FracPart(s)), |IntPart(s)|);
    MagBounds(Digits(IntPart(t)) + Digits(FracPart(t)), |IntPart(t)|);
    CanonicalWholeLength(IntPart(s), FracPart(s), IntPart(t), FracPart(t));
    CanonicalWholeLength(IntPart(t), FracPart(t), IntPart(s), FracPart(s));
    if |FracPart(s)| <= |FracPart(t)| {
      SameParts(IntPart(s), FracPart(s), IntPart(t), FracPart(t));
    } else {
      SameParts(IntPart(t), FracPart(t), IntPart(s), FracPart(s));
    }
    NumeralOfParts(s);
    NumeralOfParts(t);
  }

  /** The digits before and after the point follow from the value. */
  lemma {:induction false} SameParts(a: string, f: string, b: string, g: string)
    requires AllDigits(a) && AllDigits(b) && AllDigits(f) && AllDigits(g)
    requires |a| == |b| && |f| <= |g| && (g != "" ==> g[|g| - 1] != '0')
    requires Mag(Digits(a) + Digits(f), |a|) == Mag(Digits(b) + Digits(g), |b|)
    ensures a == b && f == g
  {
    hide Mag;
    var x, y := Digits(a) + Digits(f), Digits(b) + Digits(g);
    MagSamePoint(x, y, |a|);
    if g != "" {
      assert y[|y| - 1] == DigitOf(g[|g| - 1]);
    }
    assert x[..|a|] == Digits(a) && y[..|a|] == Digits(b);
    assert x[|a|..] == Digits(f) && y[|a|..] == Digits(g);
    assert Chars(Digits(a)) == Chars(Digits(b)) && Chars(Digits(f)) == Chars(Digits(g));
  }
}
