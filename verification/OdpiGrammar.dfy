/** What the number texts of the C parser mean (odpi/src/dpiUtils.c), told from
    the text alone: a coefficient, and an exponent that scales it. */
module OdpiGrammar {
  import opened Decimals
  import opened OdpiNumber

  // ----- scaling -----

  /** x times y, as a name for the product (`ProductIs`). */
  function Product(x: real, y: real): real { x * y }

  lemma {:induction false} ProductIs(x: real, y: real)
    ensures Product(x, y) == x * y
  {
  }

  lemma {:induction false} ProductTen(x: real, y: real)
    ensures Product(x, 10.0 * y) == 10.0 * Product(x, y)
    ensures Product(x, 1.0) == x
  {
  }

  lemma {:induction false} ProductSum(x: real, y: real, z: real)
    ensures Product(x + y, z) == Product(x, z) + Product(y, z)
    ensures Product(0.0, z) == 0.0 && Product(-x, z) == -Product(x, z)
  {
  }

  lemma {:induction false} Pow10Adds(a: int, b: int)
    ensures Pow10(a + b) == Product(Pow10(a), Pow10(b))
    decreases if b < 0 then -b else b
  {
    hide Product;
    if b == 0 {
      ProductTen(Pow10(a), 0.0);
    } else if b > 0 {
      Pow10Adds(a, b - 1);
      Pow10Step(a + b - 1);
      Pow10Step(b - 1);
      ProductTen(Pow10(a), Pow10(b - 1));
    } else {
      Pow10Adds(a, b + 1);
      Pow10Step(a + b);
      Pow10Step(b);
      ProductTen(Pow10(a), Pow10(b));
    }
  }

  lemma {:induction false} TimesScaled(n: nat, unit: real, scale: real)
    ensures Times(n, Product(unit, scale)) == Product(Times(n, unit), scale)
  {
    hide Product;
    if n > 0 {
      TimesScaled(n - 1, unit, scale);
      ProductSum(unit, Times(n - 1, unit), scale);
    } else {
      ProductSum(0.0, 0.0, scale);
    }
  }

  /** Moving the point scales the number. */
  lemma {:induction false} MagShift(ds: seq<Digit>, point: int, k: int)
    ensures Mag(ds, point + k) == Product(Mag(ds, point), Pow10(k))
  {
    hide *;
    DigitsToNatIsMag(ds, point + k);
    DigitsToNatIsMag(ds, point);
    Pow10Adds(point - |ds|, k);
    assert point + k - |ds| == point - |ds| + k;
    TimesScaled(DigitsToNat(ds), Pow10(point - |ds|), Pow10(k));
  }

  lemma {:induction false} SignedScale(negative: bool, x: real, y: real)
    ensures Signed(negative, Product(x, y)) == Product(Signed(negative, x), y)
  {
    hide Product;
    ProductSum(x, 0.0, y);
  }

  // ----- texts without an exponent -----

  predicate IsMark(m: char) { m == 'e' || m == 'E' }

  predicate Unmarked(c: string) { 'e' !in c && 'E' !in c }

  lemma {:induction false} NoMarkIn(c: string)
    requires Unmarked(c)
    ensures MarkIndex(Unsigned(c)) == |Unsigned(c)| && Coefficient(c) == Unsigned(c) && !HasMark(c)
  {
    var u := Unsigned(c);
    forall k | 0 <= k < |u|
      ensures !Stops(u[k], false)
    {
      assert u[k] in c;
    }
    MarkIs(u, |u|);
  }

  /** Without a mark the numbers are the decimal texts, a lone sign, a lone point
      and nothing at all included, and they denote what the decimal text does. */
  lemma {:induction false} PlainNumber(c: string)
    requires Unmarked(c)
    ensures IsNumber(c) <==> AllDigits(IntPart(c)) && AllDigits(FracPart(c))
    ensures IsDecimal(c) ==> NumberValue(c) == TextValue(c)
    ensures IsNumber(c) && !IsDecimal(c) ==> NumberValue(c) == 0.0
    ensures IsNumber(c) ==>
              var all := Digits(IntPart(c)) + Digits(FracPart(c));
              PartsOf(c) == Parts(IsNegative(c), |DropLead(all)| - |FracPart(c)|, DropBack(DropLead(all)))
  {
    NoMarkIn(c);
    hide MarkIndex, Digits, AllDigits, IndexOf, Unsigned, DropLead, DropBack, Coefficient;
    assert Whole(c) == IntPart(c) && Fraction(c) == FracPart(c);
  }

  // ----- texts with an exponent -----

  /** A text split at its first mark, the sign behind the mark apart. */
  predicate Split(c: string, m: char, g: string, y: string) {
    Unmarked(c) && IsMark(m) && (g == "+" || g == "-" || (g == "" && (y == "" || (y[0] != '+' && y[0] != '-'))))
  }

  /** Every text with a mark can be split. */
  lemma {:induction false} SplitExists(s: string) returns (c: string, m: char, g: string, y: string)
    requires !Unmarked(s)
    ensures Split(c, m, g, y) && s == c + [m] + g + y
  {
    hide MarkIndex;
    var i := MarkIndex(s);
    MarkFound(s, i);
    c, m := s[..i], s[i];
    g, y := SignOf(s[i + 1..]);
    ThreeParts(s, i, g, y);
  }

  lemma {:induction false} MarkFound(s: string, i: nat)
    requires !Unmarked(s) && i <= |s| && forall k :: 0 <= k < i ==> s[k] != 'e' && s[k] != 'E'
    ensures i < |s| && Unmarked(s[..i])
  {
  }

  lemma {:induction false} SignOf(x: string) returns (g: string, y: string)
    ensures x == g + y && (g == "+" || g == "-" || (g == "" && (y == "" || (y[0] != '+' && y[0] != '-'))))
  {
    g := if x != "" && (x[0] == '+' || x[0] == '-') then x[..1] else "";
    y := x[|g|..];
  }

  lemma {:induction false} ThreeParts(s: string, i: nat, g: string, y: string)
    requires i < |s| && s[i + 1..] == g + y
    ensures s == s[..i] + [s[i]] + g + y
  {
    assert s == s[..i] + [s[i]] + s[i + 1..];
    assert s[..i] + [s[i]] + (g + y) == s[..i] + [s[i]] + g + y;
  }

  lemma {:induction false} SplitFront(s: string, c: string, m: char, g: string, y: string)
    requires Split(c, m, g, y) && s == c + [m] + g + y
    ensures IsNegative(s) == IsNegative(c) && Unsigned(s) == Unsigned(c) + [m] + (g + y)
  {
    assert c != "" ==> s[0] == c[0];
    assert c == "" ==> s[0] == m;
  }

  lemma {:induction false} SplitUnsigned(u: string, a: string, m: char, b: string)
    requires Unmarked(a) && IsMark(m) && u == a + [m] + b
    ensures MarkIndex(u) == |a| < |u| && u[..|a|] == a && u[|a| + 1..] == b
  {
    forall k | 0 <= k < |a|
      ensures !Stops(u[k], false)
    {
      assert u[k] == a[k] && a[k] in a;
    }
    MarkIs(u, |a|);
  }

  lemma {:induction false} SplitParts(s: string, c: string, m: char, g: string, y: string)
    requires Split(c, m, g, y) && s == c + [m] + g + y
    ensures HasMark(s) && AfterMark(s) == g + y && ExponentDigits(s) == y
    ensures IsNegative(s) == IsNegative(c) && Whole(s) == Whole(c) && Fraction(s) == Fraction(c)
  {
    NoMarkIn(c);
    SplitFront(s, c, m, g, y);
    assert Unmarked(Unsigned(c)) by {
      assert forall k :: 0 <= k < |Unsigned(c)| ==> Unsigned(c)[k] in c;
    }
    SplitUnsigned(Unsigned(s), Unsigned(c), m, g + y);
    SignApart(g, y);
    hide MarkIndex, Unsigned, IsNegative, WholeIn, FractionIn;
  }

  lemma {:induction false} SignApart(g: string, y: string)
    requires g == "+" || g == "-" || (g == "" && (y == "" || (y[0] != '+' && y[0] != '-')))
    ensures var x := g + y; (if x != "" && (x[0] == '+' || x[0] == '-') then x[1..] else x) == y
    ensures g + y != "" ==> ((g + y)[0] == '-' <==> g == "-")
  {
  }

  predicate IsExponent(x: string) { AllDigits(x) && 1 <= |x| <= 3 }

  /** What the sign and digits behind the mark spell. */
  function Power(g: string, x: string): int
    requires AllDigits(x)
  {
    if g == "-" then 0 - DigitsToNat(Digits(x)) as int else DigitsToNat(Digits(x)) as int
  }

  lemma {:induction false} SplitExponent(s: string, c: string, m: char, g: string, x: string)
    requires Split(c, m, g, x) && s == c + [m] + g + x && IsExponent(x) && IsNumber(s)
    ensures ExponentOf(s) == Power(g, x)
  {
    SplitParts(s, c, m, g, x);
    SignApart(g, x);
    hide HasMark, AfterMark, ExponentDigits, DigitsToNat, Digits, AllDigits, Whole, Fraction, Split;
    assert g + x != "";
  }

  lemma {:induction false} ValueOf(s: string)
    requires IsNumber(s)
    ensures NumberValue(s) == Signed(IsNegative(s), Mag(AllOf(s), |Whole(s)| + ExponentOf(s)))
    ensures PartsOf(s) ==
              Parts(IsNegative(s), |DropLead(AllOf(s))| - |Fraction(s)| + ExponentOf(s), DropBack(DropLead(AllOf(s))))
  {
  }

  /** The same digits under another exponent. */
  lemma {:induction false} Shifted(s: string, c: string, k: int)
    requires IsNumber(s) && IsNumber(c) && AllOf(s) == AllOf(c) && |Whole(s)| == |Whole(c)|
    requires |Fraction(s)| == |Fraction(c)| && IsNegative(s) == IsNegative(c)
    requires ExponentOf(s) == k && ExponentOf(c) == 0
    ensures NumberValue(s) == Product(NumberValue(c), Pow10(k))
    ensures PartsOf(s) == PartsOf(c).(point := PartsOf(c).point + k)
  {
    hide *;
    ValueOf(s);
    ValueOf(c);
    MagShift(AllOf(c), |Whole(c)|, k);
    SignedScale(IsNegative(c), Mag(AllOf(c), |Whole(c)|), Pow10(k));
  }

  /** An exponent of one to three digits, with or without a sign, multiplies the
      number by that power of ten: "1e+2" is a hundred. */
  lemma {:induction false} MarkedValue(c: string, m: char, g: string, x: string)
    requires Split(c, m, g, x) && IsExponent(x)
    ensures var s := c + [m] + g + x;
            && (IsNumber(s) <==> IsNumber(c))
            && (IsNumber(c) ==> NumberValue(s) == NumberValue(c) * Pow10(Power(g, x)))
            && (IsNumber(c) ==> PartsOf(s) == PartsOf(c).(point := PartsOf(c).point + Power(g, x)))
  {
    var s := c + [m] + g + x;
    MarkedIsNumber(s, c, m, g, x);
    if IsNumber(c) {
      SplitExponent(s, c, m, g, x);
      SplitParts(s, c, m, g, x);
      PlainIs(c);
      hide *;
      AllOfIs(s);
      AllOfIs(c);
      Shifted(s, c, Power(g, x));
      ProductIs(NumberValue(c), Pow10(Power(g, x)));
    }
  }

  lemma {:induction false} MarkedIsNumber(s: string, c: string, m: char, g: string, x: string)
    requires Split(c, m, g, x) && s == c + [m] + g + x && IsExponent(x)
    ensures IsNumber(s) <==> IsNumber(c)
  {
    SplitParts(s, c, m, g, x);
    NoMarkIn(c);
    hide HasMark, AfterMark, ExponentDigits, AllDigits, Whole, Fraction, Split;
  }

  lemma {:induction false} PlainIs(c: string)
    requires Unmarked(c) && IsNumber(c)
    ensures ExponentOf(c) == 0
  {
    NoMarkIn(c);
  }

  lemma {:induction false} AllOfIs(s: string)
    requires IsNumber(s)
    ensures AllDigits(Whole(s)) && AllDigits(Fraction(s)) && AllOf(s) == Digits(Whole(s)) + Digits(Fraction(s))
  {
  }

  /** The answer to every text with a mark: what stands before the mark has to be
      a number, a fourth digit behind it is not supported, anything else but one
      to three digits is no number, and then the moved point has to be in range. */
  lemma {:induction false} MarkedScan(c: string, m: char, g: string, y: string)
    requires Split(c, m, g, y)
    ensures Scanned(c + [m] + g + y) ==
            if !IsNumber(c) then Failed(InvalidNumber)
            else if |y| >= 4 && AllDigits(y[..4]) then Failed(NotSupported)
            else if !IsExponent(y) then Failed(InvalidNumber)
            else
              var p := PartsOf(c).(point := PartsOf(c).point + Power(g, y));
              if |p.digits| <= 40 && -129 <= p.point <= 126 then Parsed(p) else Failed(NoRepresentation)
  {
    assert Unmarked(c);
    hide *;
    var s := c + [m] + g + y;
    SplitParts(s, c, m, g, y);
    PlainGrammar(c);
    if !IsNumber(c) {
      BadCoefficient(s);
    } else if IsExponent(y) {
      MarkedValue(c, m, g, y);
      GoodNumber(s);
      RangeIs(PartsOf(s));
      ShortExponent(y);
    } else {
      ShortExponent(y);
      BadExponent(s);
    }
  }

  lemma {:induction false} PlainGrammar(c: string)
    requires Unmarked(c)
    ensures IsNumber(c) <==> AllDigits(Whole(c)) && AllDigits(Fraction(c))
  {
    NoMarkIn(c);
    hide HasMark, AllDigits, Whole, Fraction;
  }

  lemma {:induction false} RangeIs(p: Parts)
    ensures InRange(p) <==> |p.digits| <= 40 && -129 <= p.point <= 126
  {
  }

  lemma {:induction false} ShortExponent(y: string)
    ensures IsExponent(y) <==> AllDigits(y) && 1 <= |y| <= 3
    ensures ExponentError(y) == if |y| >= 4 && AllDigits(y[..4]) then NotSupported else InvalidNumber
  {
  }

  /** The answer to every text without one. */
  lemma {:induction false} PlainScan(c: string)
    requires Unmarked(c)
    ensures Scanned(c) ==
            if !(AllDigits(IntPart(c)) && AllDigits(FracPart(c))) then Failed(InvalidNumber)
            else
              var all := Digits(IntPart(c)) + Digits(FracPart(c));
              var p := Parts(IsNegative(c), |DropLead(all)| - |FracPart(c)|, DropBack(DropLead(all)));
              if |p.digits| <= 40 && -129 <= p.point <= 126 then Parsed(p) else Failed(NoRepresentation)
  {
    hide *;
    PlainNumber(c);
    PlainGrammar(c);
    if IsNumber(c) {
      GoodNumber(c);
      RangeIs(PartsOf(c));
    } else {
      BadCoefficient(c);
    }
  }
}
