/** `Number` (number.go): a decimal text taken apart into sign, coefficient and
    exponent, and put together by shifting bytes in a buffer. */
module GodrorNumber {
  import opened Decimals
  import opened OciFormat
  import opened BigNumbers
  import opened Words

  /** coefficient * 10^exponent, with the sign. */
  ghost function PartsValue(p: Parts): real {
    Signed(p.negative, Times(BytesToNat(p.coefficient), Pow10(p.exponent)))
  }

  // ----- Compose -----

  /** What the shifting makes of sign and digits. */
  function Placed(sign: string, ds: string, e: int): string {
    if e >= 0 then sign + ds + Chars(Zeros(e))
    else if -e >= |ds| then sign + "0." + Chars(Zeros(-e - |ds|)) + ds
    else sign + ds[..|ds| + e] + "." + ds[|ds| + e..]
  }

  /** The text that composing produces. */
  function ComposeText(negative: bool, c: nat, e: int): string { Placed(Sign(negative), Chars(NatToDigits(c)), e) }

  /** Go's copy: the source is read before anything is written. */
  function Copied(p: string, at: nat, src: string): string
    requires at + |src| <= |p|
  {
    p[..at] + src + p[at + |src|..]
  }

  /** Zeros appended for a positive exponent. */
  method AppendZeros(q: string, exponent: int) returns (p: string)
    requires exponent >= 0
    ensures p == q + Chars(Zeros(exponent))
  {
    p := q;
    var e := exponent;
    while e > 0
      invariant 0 <= e <= exponent && p == q + Chars(Zeros(exponent - e))
    {
      p := p + "0";
      e := e - 1;
      assert Chars(Zeros(exponent - e)) == Chars(Zeros(exponent - e - 1)) + "0";
    }
  }

  /** The digits moved up, and zeros and a point filled in before them. */
  method ShiftBehindPoint(sign: string, ds: string, exp: nat) returns (p: string)
    requires exp >= |ds|
    ensures p == sign + "0." + Chars(Zeros(exp - |ds|)) + ds
  {
    p := sign + ds;
    var start := |sign|;
    var plus := exp - |p| + start + 1;
    var olen := |p|;
    p := p + seq(plus + 1, _ => '\0');
    p := Copied(p, start + 1 + plus, p[start..olen]);
    assert p[start + 1 + plus..] == ds && p[..start] == sign;
    for i := 0 to plus
      invariant |p| == olen + plus + 1 && p[start + 1 + plus..] == ds && p[..start] == sign
      invariant forall k :: start + 1 <= k < start + 1 + i ==> p[k] == '0'
    {
      p := p[start + 1 + i := '0'];
    }
    p := p[start := '0'];
    p := p[start + 1 := '.'];
    BehindPoint(p, sign, exp - |ds|, ds);
  }

  lemma {:induction false} BehindPoint(p: string, sign: string, n: nat, ds: string)
    requires |p| == |sign| + 2 + n + |ds| && p[..|sign|] == sign && p[|sign|] == '0' && p[|sign| + 1] == '.'
    requires forall k :: |sign| + 2 <= k < |sign| + 2 + n ==> p[k] == '0'
    requires p[|sign| + 2 + n..] == ds
    ensures p == sign + "0." + Chars(Zeros(n)) + ds
  {
    var a, b := |sign|, |sign| + 2 + n;
    assert p[a..a + 2] == "0.";
    assert p[a + 2..b] == Chars(Zeros(n));
    hide Chars, Zeros;
    assert p == p[..a] + p[a..a + 2] + p[a + 2..b] + p[b..];
  }

  /** The last digits moved up by one, and a point put in the gap. */
  method InsertPoint(sign: string, ds: string, exp: nat) returns (p: string)
    requires 0 < exp < |ds|
    ensures p == sign + ds[..|ds| - exp] + "." + ds[|ds| - exp..]
  {
    p := sign + ds;
    var q := p + [p[|p| - 1]];
    var n := |q|;
    p := Copied(q, n - 1 - exp, q[n - 2 - exp..n - 2]);
    assert |q[n - 2 - exp..n - 2]| == exp;
    p := p[n - 1 - exp := '.'];
    ghost var k := |sign| + |ds| - exp;
    assert n - 1 - exp == k;
    forall i | 0 <= i < n
      ensures p[i] == if i < k then (sign + ds)[i] else if i == k then '.' else (sign + ds)[i - 1]
    {
    }
    assert p == (sign + ds)[..k] + "." + (sign + ds)[k..];
    assert (sign + ds)[..k] == sign + ds[..|ds| - exp] && (sign + ds)[k..] == ds[|ds| - exp..];
  }

  lemma {:induction false} Negated(e: int)
    requires -INT32_LIMIT <= e < 0
    ensures Int32(-e) == if e == -INT32_LIMIT then -INT32_LIMIT else -e
  {
  }

  /** The point put into digits, or zeros behind them. */
  method Place(sign: string, ds: string, exponent: int) returns (panics: bool, text: string)
    requires FitsInt32(exponent)
    ensures panics <==> exponent == -INT32_LIMIT
    ensures !panics ==> text == Placed(sign, ds, exponent)
  {
    panics, text := false, "";
    if exponent >= 0 {
      text := AppendZeros(sign + ds, exponent);
      return;
    }
    Negated(exponent);
    hide Int32;
    var exp := Int32(-exponent);
    if exp - |sign + ds| + |sign| + 1 > 0 {
      text := ShiftBehindPoint(sign, ds, exp);
    } else if exp < 0 {
      panics := true;
    } else {
      text := InsertPoint(sign, ds, exp);
    }
  }

  /** `Number.Compose`; the form is not looked at.  The smallest 32-bit exponent
      stays negative when negated, and becomes a slice bound out of range. */
  method Compose(p: Parts) returns (panics: bool, text: string)
    requires FitsInt32(p.exponent)
    ensures panics <==> p.exponent == -INT32_LIMIT
    ensures !panics ==> text == ComposeText(p.negative, BytesToNat(p.coefficient), p.exponent)
  {
    var sign := if p.negative then "-" else "";
    var ds := Chars(NatToDigits(BytesToNat(p.coefficient)));
    panics, text := Place(sign, ds, p.exponent);
  }

  // ----- Decompose -----

  /** The digits of an integer literal, after an optional sign. */
  function Magnitude(t: string): string { if t != "" && (t[0] == '-' || t[0] == '+') then t[1..] else t }

  predicate IsInteger(t: string) { Magnitude(t) != "" && AllDigits(Magnitude(t)) }

  function WithoutPoint(s: string): string {
    var dot := IndexOf(s, '.');
    if dot < |s| then s[..dot] + s[dot + 1..] else s
  }

  /** How many characters stand behind the point. */
  function Behind(s: string): nat {
    var dot := IndexOf(s, '.');
    if dot < |s| then |s| - 1 - dot else 0
  }

  /** They are counted in 32 bits, and the count is negated in 32 bits. */
  function PointExponent(s: string): int { Int32(-Int32(Behind(s))) }

  lemma {:induction false} CountExact(n: int)
    requires n >= 0
    ensures Int32(-Int32(n)) == -n <==> n <= INT32_LIMIT
  {
  }

  /** What taking apart yields: not a number, zero, or the parts. */
  function DecomposeText(s: string): Parts {
    var t := WithoutPoint(s);
    if !IsInteger(t) then Parts(NAN, false, [], 0)
    else
      var c := DigitsToNat(Digits(Magnitude(t)));
      if c == 0 then Parts(FINITE, false, [], 0)
      else Parts(FINITE, t[0] == '-', NatToBytes(c), PointExponent(s))
  }

  /** A decimal text after an optional plus or minus sign. */
  predicate IsSigned(s: string) { !IsNegative(Magnitude(s)) && IsDecimal(Magnitude(s)) }

  /** The number it denotes. */
  ghost function SignedValue(s: string): real
    requires IsSigned(s)
  {
    Signed(IsNegative(s), TextValue(Magnitude(s)))
  }

  /** A point, a sign and digits: taking out the point lets the sign through. */
  predicate SignBehindPoint(s: string) { |s| > 2 && s[0] == '.' && (s[1] == '-' || s[1] == '+') && AllDigits(s[2..]) }

  /** What it is taken for: the sign counts as a digit zero. */
  ghost function BehindValue(s: string): real
    requires SignBehindPoint(s)
  {
    Signed(s[1] == '-', Mag(Digits(s[2..]), -1))
  }

  /** `Number.Decompose`: which texts are numbers, and what the parts denote.
      The exponent counts the characters behind the point in 32 bits. */
  method Decompose(s: string) returns (p: Parts)
    ensures p == DecomposeText(s)
    ensures p.form == FINITE <==> IsSigned(s) || SignBehindPoint(s)
    ensures p.form != FINITE ==> p == Parts(NAN, false, [], 0)
    ensures IsSigned(s) ==>
            (PartsValue(p) == SignedValue(s) <==> SignedValue(s) == 0.0 || Behind(s) <= INT32_LIMIT)
    ensures SignBehindPoint(s) ==>
            (PartsValue(p) == BehindValue(s) <==> BehindValue(s) == 0.0 || Behind(s) <= INT32_LIMIT)
    ensures p.coefficient != [] ==> p.coefficient[0] != 0
  {
    hide *;
    Decomposed(s);
    PointCases(s);
    DecomposeCases(s, WithoutPoint(s));
    var t, exponent := s, 0;
    var mexp := IndexOf(s, '.');
    if mexp < |s| {
      t := t[..mexp] + t[mexp + 1..];
      exponent := Int32(-Int32(|t| - mexp));
    }
    if !IsInteger(t) {
      return Parts(NAN, false, [], 0);
    }
    var i: int := DigitsToNat(Digits(Magnitude(t)));
    if i == 0 {
      return Parts(FINITE, false, [], 0);
    }
    var negative := t[0] == '-';
    p := Parts(FINITE, negative, NatToBytes(i), exponent);
  }

  // ----- what is taken apart -----

  lemma {:induction false} PointCases(s: string)
    ensures var dot := IndexOf(s, '.');
            && (dot < |s| ==> WithoutPoint(s) == s[..dot] + s[dot + 1..])
            && (dot < |s| ==> PointExponent(s) == Int32(-Int32(|s[..dot] + s[dot + 1..]| - dot)))
            && (dot == |s| ==> WithoutPoint(s) == s && PointExponent(s) == 0)
  {
    assert Int32(-Int32(0)) == 0;
    hide Int32, IndexOf;
  }

  lemma {:induction false} DecomposeCases(s: string, t: string)
    requires t == WithoutPoint(s)
    ensures !IsInteger(t) ==> DecomposeText(s) == Parts(NAN, false, [], 0)
    ensures IsInteger(t) ==> t != "" && AllDigits(Magnitude(t))
    ensures IsInteger(t) ==>
              var c := DigitsToNat(Digits(Magnitude(t)));
              DecomposeText(s) == if c == 0 then Parts(FINITE, false, [], 0)
                                  else Parts(FINITE, t[0] == '-', NatToBytes(c), PointExponent(s))
  {
    hide WithoutPoint, PointExponent, DigitsToNat, Digits, NatToBytes, AllDigits;
  }

  lemma {:induction false} Decomposed(s: string)
    ensures var p := DecomposeText(s);
            && (p.form == FINITE <==> IsSigned(s) || SignBehindPoint(s))
            && (p.form != FINITE ==> p == Parts(NAN, false, [], 0))
            && (IsSigned(s) ==>
                  (PartsValue(p) == SignedValue(s) <==> SignedValue(s) == 0.0 || Behind(s) <= INT32_LIMIT))
            && (SignBehindPoint(s) ==>
                  (PartsValue(p) == BehindValue(s) <==> BehindValue(s) == 0.0 || Behind(s) <= INT32_LIMIT))
            && (p.coefficient != [] ==> p.coefficient[0] != 0)
  {
    hide *;
    Accepts(s);
    if SignBehindPoint(s) {
      NotBoth(s);
    }
    if IsSigned(s) {
      DecomposedValue(s);
    } else if SignBehindPoint(s) {
      BehindPointValue(s);
    }
    FormOf(s);
  }

  lemma {:induction false} FormOf(s: string)
    ensures var p := DecomposeText(s);
            (p.form != FINITE ==> p == Parts(NAN, false, [], 0)) && (p.coefficient != [] ==> p.coefficient[0] != 0)
  {
    hide IsInteger, DigitsToNat, Digits, Magnitude, WithoutPoint, PointExponent;
  }

  lemma {:induction false} NotBoth(s: string)
    requires SignBehindPoint(s)
    ensures !IsSigned(s)
  {
    assert IndexOf(s, '.') == 0 && FracPart(s)[0] == s[1];
  }

  predicate IsSign(sign: string) { sign == "" || sign == "-" || sign == "+" }

  /** The point and the digits behind it, or nothing. */
  function Tail(f: string, dotted: bool): string { if dotted then "." + f else "" }

  /** A text as sign, digits, point and digits. */
  ghost predicate Spelled(s: string, sign: string, w: string, f: string, dotted: bool) {
    && IsSign(sign) && AllDigits(w) && AllDigits(f) && |w| + |f| > 0
    && (!dotted ==> f == "") && s == sign + w + Tail(f, dotted)
  }

  lemma {:induction false} PointBehind(a: string, rest: string)
    requires forall i :: 0 <= i < |a| ==> a[i] != '.'
    ensures IndexOf(a + rest, '.') == |a| + IndexOf(rest, '.')
  {
    if a == "" {
      assert a + rest == rest;
    } else {
      assert (a + rest)[0] == a[0] && (a + rest)[1..] == a[1..] + rest;
      PointBehind(a[1..], rest);
    }
  }

  lemma {:induction false} NoPointInFront(sign: string, w: string)
    requires IsSign(sign) && AllDigits(w)
    ensures forall i :: 0 <= i < |sign + w| ==> (sign + w)[i] != '.'
  {
    forall i | 0 <= i < |sign + w| ensures (sign + w)[i] != '.' {
      if i >= |sign| {
        assert (sign + w)[i] == w[i - |sign|] && IsDigitChar(w[i - |sign|]);
      }
    }
  }

  lemma {:induction false} TailIndex(f: string, dotted: bool)
    ensures IndexOf(Tail(f, dotted), '.') == 0 && |Tail(f, dotted)| == if dotted then 1 + |f| else 0
  {
  }

  lemma {:induction false} SpelledPoint(s: string, sign: string, w: string, f: string, dotted: bool)
    requires Spelled(s, sign, w, f, dotted)
    ensures IndexOf(s, '.') == |sign| + |w| && |s| == |sign| + |w| + if dotted then 1 + |f| else 0
    ensures WithoutPoint(s) == sign + (w + f)
  {
    NoPointInFront(sign, w);
    PointBehind(sign + w, Tail(f, dotted));
    TailIndex(f, dotted);
    CutPoint(sign, w, f);
    hide IndexOf, AllDigits;
  }

  lemma {:induction false} SpelledMagnitude(sign: string, d: string)
    requires IsSign(sign) && (d != "" ==> d[0] != '-' && d[0] != '+')
    ensures Magnitude(sign + d) == d && (d != "" ==> (IsNegative(sign + d) <==> sign == "-"))
  {
    assert sign == "" ==> sign + d == d;
    assert sign != "" ==> (sign + d)[1..] == d;
  }

  lemma {:induction false} SplitSign(s: string) returns (sign: string)
    ensures IsSign(sign) && s == sign + Magnitude(s) && (sign == "-" <==> IsNegative(s))
  {
    if Magnitude(s) == s {
      sign := "";
      assert s == "" + s;
    } else {
      sign := [s[0]];
      assert s == [s[0]] + s[1..];
    }
  }

  lemma {:induction false} SplitPoint(u: string) returns (dotted: bool)
    requires !IsNegative(u)
    ensures u == IntPart(u) + Tail(FracPart(u), dotted) && (!dotted ==> FracPart(u) == "")
  {
    hide IndexOf;
    var dot := IndexOf(u, '.');
    dotted := dot < |u|;
    if dotted {
      assert u == u[..dot] + ("." + u[dot + 1..]);
    } else {
      assert u == u[..dot] + "";
    }
  }

  /** Signed texts are those spelled as sign, digits, point, digits. */
  lemma {:induction false} SignedSpelled(s: string) returns (sign: string, w: string, f: string, dotted: bool)
    requires IsSigned(s)
    ensures Spelled(s, sign, w, f, dotted) && w == IntPart(Magnitude(s)) && f == FracPart(Magnitude(s))
    ensures sign == "-" <==> IsNegative(s)
  {
    hide IntPart, FracPart, Magnitude, Tail, IsNegative, AllDigits;
    w, f := IntPart(Magnitude(s)), FracPart(Magnitude(s));
    sign := SplitSign(s);
    dotted := SplitPoint(Magnitude(s));
    JoinFront(sign, w, Tail(f, dotted));
  }

  lemma {:induction false} JoinFront(a: string, b: string, c: string)
    ensures a + (b + c) == a + b + c
  {
  }

  lemma {:induction false} SpelledParts(w: string, f: string, dotted: bool)
    requires AllDigits(w) && AllDigits(f) && |w| + |f| > 0 && (!dotted ==> f == "")
    ensures var u := w + Tail(f, dotted);
            && u != "" && u[0] != '-' && u[0] != '+' && IntPart(u) == w && FracPart(u) == f
  {
    var u := w + Tail(f, dotted);
    assert if w != "" then u[0] == w[0] && IsDigitChar(w[0]) else u[0] == '.';
    assert "" + w == w;
    NoPointInFront("", w);
    PointBehind(w, Tail(f, dotted));
    TailIndex(f, dotted);
    hide IndexOf, AllDigits;
    assert u[..|w|] == w;
    assert dotted ==> u[|w| + 1..] == f;
  }

  lemma {:induction false} SpelledSigned(s: string, sign: string, w: string, f: string, dotted: bool)
    requires Spelled(s, sign, w, f, dotted)
    ensures IsSigned(s)
  {
    SpelledParts(w, f, dotted);
    hide IntPart, FracPart, Magnitude, AllDigits, Tail;
    JoinFront(sign, w, Tail(f, dotted));
    SpelledMagnitude(sign, w + Tail(f, dotted));
  }

  /** Exactly which texts are taken for numbers. */
  lemma {:induction false} Accepts(s: string)
    ensures DecomposeText(s).form == FINITE <==> IsSigned(s) || SignBehindPoint(s)
  {
    if IsSigned(s) {
      SignedAccepted(s);
    } else if SignBehindPoint(s) {
      BehindPointAccepted(s);
    } else if IsInteger(WithoutPoint(s)) {
      AcceptedIs(s);
    }
    hide IsSigned, SignBehindPoint, IsInteger, WithoutPoint;
  }

  lemma {:induction false} SignedAccepted(s: string)
    requires IsSigned(s)
    ensures IsInteger(WithoutPoint(s))
  {
    hide WithoutPoint, IsSigned, Magnitude, Tail;
    var sign, w, f, dotted := SignedSpelled(s);
    SpelledPoint(s, sign, w, f, dotted);
    DigitsInFront(w, f);
    SpelledMagnitude(sign, w + f);
  }

  lemma {:induction false} DigitsInFront(w: string, f: string)
    requires AllDigits(w) && AllDigits(f) && |w| + |f| > 0
    ensures w + f != "" && AllDigits(w + f) && (w + f)[0] != '-' && (w + f)[0] != '+'
            && Digits(w + f) == Digits(w) + Digits(f)
  {
    assert IsDigitChar((w + f)[0]);
  }

  lemma {:induction false} BehindPointAccepted(s: string)
    requires SignBehindPoint(s)
    ensures WithoutPoint(s) == s[1..] && Magnitude(s[1..]) == s[2..] && IsInteger(s[1..]) && IndexOf(s, '.') == 0
  {
    assert IndexOf(s, '.') == 0;
    assert s[..0] + s[1..] == s[1..] && s[1..][1..] == s[2..];
  }

  lemma {:induction false} AcceptedIs(s: string)
    requires IsInteger(WithoutPoint(s))
    ensures IsSigned(s) || SignBehindPoint(s)
  {
    assert AllDigits("");
    hide IndexOf, IsSigned, Magnitude, AllDigits;
    var dot, t := IndexOf(s, '.'), WithoutPoint(s);
    var sign := SplitSign(t);
    if dot == |s| {
      assert s == sign + Magnitude(t) + "";
      SpelledSigned(s, sign, Magnitude(t), "", false);
    } else if dot == 0 && sign != "" {
      assert t == s[1..];
      SignInFront(s, sign, Magnitude(t));
    } else {
      DottedIs(s, dot, t, sign, Magnitude(t));
    }
  }

  lemma {:induction false} SignInFront(s: string, sign: string, d: string)
    requires s != "" && s[0] == '.' && s[1..] == sign + d && IsSign(sign) && sign != "" && AllDigits(d) && d != ""
    ensures SignBehindPoint(s)
  {
    assert s[1] == s[1..][0] && s[2..] == s[1..][1..] == d;
  }

  lemma {:induction false} DottedIs(s: string, dot: nat, t: string, sign: string, d: string)
    requires dot < |s| && s[dot] == '.' && t == s[..dot] + s[dot + 1..] == sign + d
    requires IsSign(sign) && |sign| <= dot && AllDigits(d) && d != ""
    ensures IsSigned(s)
  {
    hide IsSigned, AllDigits;
    var w, f := s[|sign|..dot], s[dot + 1..];
    assert sign == t[..|sign|] == s[..|sign|];
    assert d == t[|sign|..] == w + f;
    InFront(w, f);
    assert s == sign + w + ("." + f);
    SpelledSigned(s, sign, w, f, true);
  }

  lemma {:induction false} InFront(w: string, f: string)
    requires AllDigits(w + f)
    ensures AllDigits(w) && AllDigits(f)
  {
    forall i | 0 <= i < |w| ensures IsDigitChar(w[i]) {
      assert (w + f)[i] == w[i];
    }
    forall i | 0 <= i < |f| ensures IsDigitChar(f[i]) {
      assert (w + f)[|w| + i] == f[i];
    }
  }

  /** A scaled coefficient, with the exponent in 32 bits and without limit. */
  lemma {:induction false} Scaled(negative: bool, c: nat, n: int, p: Parts, v: real)
    requires n >= 0 && v == Signed(negative, Times(c, Pow10(-n)))
    requires p == if c == 0 then Parts(FINITE, false, [], 0)
                  else Parts(FINITE, negative, NatToBytes(c), Int32(-Int32(n)))
    ensures PartsValue(p) == v <==> v == 0.0 || n <= INT32_LIMIT
  {
    CountExact(n);
    ScaleUnique(c, Int32(-Int32(n)), -n);
    Pow10Positive(-n);
    TimesPositive(c, Pow10(-n));
    ScaledZero(Pow10(0));
    ScaledZero(Pow10(-n));
    hide Int32, Times, Pow10, NatToBytes;
  }

  lemma {:induction false} ScaledZero(x: real)
    ensures Times(0, x) == 0.0
  {
  }

  /** The parts denote the number of the text: leading zeros, a plus sign, and a
      point at either end make no difference.  The count of fraction digits in
      32 bits does, once it overflows. */
  lemma {:induction false} DecomposedValue(s: string)
    requires IsSigned(s)
    ensures PartsValue(DecomposeText(s)) == SignedValue(s) <==> SignedValue(s) == 0.0 || Behind(s) <= INT32_LIMIT
  {
    hide WithoutPoint, Magnitude, Tail, IntPart, FracPart, Mag, NatToBytes, DigitsToNat, Digits, AllDigits, IndexOf,
         PartsValue, Int32;
    var sign, w, f, dotted := SignedSpelled(s);
    SpelledPoint(s, sign, w, f, dotted);
    SignedAccepted(s);
    DigitsInFront(w, f);
    SpelledMagnitude(sign, w + f);
    DigitsToNatIsMag(Digits(w) + Digits(f), |w|);
    assert Behind(s) == |f|;
    hide Spelled, IsSigned;
    assert TextValue(Magnitude(s)) == Mag(Digits(w) + Digits(f), |w|);
    Scaled(sign == "-", DigitsToNat(Digits(w + f)), |f|, DecomposeText(s), SignedValue(s));
  }

  /** ... and a sign behind the point counts as a digit zero. */
  lemma {:induction false} BehindPointValue(s: string)
    requires SignBehindPoint(s)
    ensures PartsValue(DecomposeText(s)) == BehindValue(s) <==> BehindValue(s) == 0.0 || Behind(s) <= INT32_LIMIT
  {
    hide *;
    BehindPointAccepted(s);
    BehindParts(s);
    DigitsToNatIsMag(Digits(s[2..]), -1);
    Scaled(s[1] == '-', DigitsToNat(Digits(s[2..])), |s| - 1, DecomposeText(s), BehindValue(s));
  }

  lemma {:induction false} BehindParts(s: string)
    requires SignBehindPoint(s)
    ensures |s| > 2 && AllDigits(s[2..]) && Behind(s) == |s| - 1
    ensures BehindValue(s) == Signed(s[1] == '-', Mag(Digits(s[2..]), -1))
    ensures var c := DigitsToNat(Digits(s[2..]));
            DecomposeText(s) == if c == 0 then Parts(FINITE, false, [], 0)
                                else Parts(FINITE, s[1] == '-', NatToBytes(c), Int32(-Int32(|s| - 1)))
  {
    hide *;
    BehindIs(s);
    BehindPointAccepted(s);
    DecomposeCases(s, WithoutPoint(s));
  }

  lemma {:induction false} BehindIs(s: string)
    requires SignBehindPoint(s)
    ensures |s| > 2 && AllDigits(s[2..]) && Behind(s) == |s| - 1 && PointExponent(s) == Int32(-Int32(|s| - 1))
    ensures BehindValue(s) == Signed(s[1] == '-', Mag(Digits(s[2..]), -1))
    ensures WithoutPoint(s) == s[1..]
  {
    assert IndexOf(s, '.') == 0;
    assert s[..0] + s[1..] == s[1..];
    hide Int32, Mag, Digits, IndexOf;
  }

  /** ".-5" is no decimal text, and is taken for minus five hundredths. */
  lemma {:induction false} BehindPointExample()
    ensures !IsSigned(".-5") && SignBehindPoint(".-5")
    ensures var p := DecomposeText(".-5"); p.form == FINITE && PartsValue(p) == Signed(true, Mag([5], -1))
  {
    var s := ".-5";
    assert s[2..] == "5" && IsDigitChar(s[2..][0]);
    assert Digits("5") == [5];
    assert IndexOf(s, '.') == 0 && FracPart(s)[0] == '-';
    Accepts(s);
    BehindPointValue(s);
    hide PartsValue, DecomposeText, Mag;
  }

  // ----- laws -----

  /** A plain numeral: no redundant zero in front, no point without digits
      behind it.  Zeros at the end of the fraction are fine. */
  predicate IsPlain(s: string) {
    IsDecimal(s) && CanonicalInt(IntPart(s)) && (FracPart(s) == "" ==> '.' !in s)
  }

  /** The parts of the composed text: digits before the point, digits behind it. */
  function WholeOf(ds: seq<Digit>, e: int): string
    requires ds != []
  {
    if e >= 0 then Chars(ds) + Chars(Zeros(e)) else if -e >= |ds| then "0" else Chars(ds[..|ds| + e])
  }

  function FracOf(ds: seq<Digit>, e: int): string
    requires ds != []
  {
    if e >= 0 then "" else if -e >= |ds| then Chars(Zeros(-e - |ds|)) + Chars(ds) else Chars(ds[|ds| + e..])
  }

  lemma {:induction false} Regroup(sign: string, a: string, b: string)
    ensures sign + a + b == sign + (a + b) + ""
    ensures sign + "0." + a + b == sign + "0" + ("." + (a + b))
    ensures sign + a + "." + b == sign + a + ("." + b)
  {
  }

  lemma {:induction false} CharsSplit(ds: seq<Digit>, k: nat)
    requires k <= |ds|
    ensures Chars(ds)[..k] == Chars(ds[..k]) && Chars(ds)[k..] == Chars(ds[k..])
  {
  }

  lemma {:induction false} ShapeText(negative: bool, c: nat, e: int)
    ensures var ds := NatToDigits(c); ComposeText(negative, c, e) == Numeral(negative, WholeOf(ds, e), FracOf(ds, e))
  {
    hide NatToDigits, Chars, Zeros, Sign;
    var ds, n := NatToDigits(c), |NatToDigits(c)|;
    if e >= 0 {
      Regroup(Sign(negative), Chars(ds), Chars(Zeros(e)));
    } else if -e >= n {
      Regroup(Sign(negative), Chars(Zeros(-e - n)), Chars(ds));
    } else {
      CharsSplit(ds, n + e);
      Regroup(Sign(negative), Chars(ds[..n + e]), Chars(ds[n + e..]));
    }
  }

  lemma {:induction false} ShapeDigits(ds: seq<Digit>, e: int)
    requires ds != [] && (ds[0] == 0 ==> ds == [0])
    ensures var whole, frac := WholeOf(ds, e), FracOf(ds, e);
            && AllDigits(whole) && AllDigits(frac) && whole != "" && |frac| == (if e < 0 then -e else 0)
            && Mag(Digits(whole) + Digits(frac), |whole|) == Mag(ds, |ds| + e)
            && (ds[0] != 0 || e <= 0 ==> CanonicalInt(whole))
  {
    var n := |ds|;
    assert CharOf(ds[0]) == '0' <==> ds[0] == 0;
    hide Mag;
    if e >= 0 {
      WholeShape(ds, Zeros(e));
      assert e == 0 ==> Chars(ds) + Chars(Zeros(e)) == Chars(ds);
    } else if -e >= n {
      FrontShape(Zeros(-e - n), ds);
    } else {
      InnerShape(ds, n + e);
    }
  }

  lemma {:induction false} InnerShape(ds: seq<Digit>, k: nat)
    requires 0 < k < |ds|
    ensures var whole, frac := Chars(ds[..k]), Chars(ds[k..]);
            AllDigits(whole) && AllDigits(frac) && whole[0] == CharOf(ds[0])
              && Mag(Digits(whole) + Digits(frac), |whole|) == Mag(ds, k)
  {
    hide Mag;
    ParseOfChars(ds[..k]);
    ParseOfChars(ds[k..]);
    assert ds[..k] + ds[k..] == ds;
  }

  /** Composing gives a numeral of the number with exactly -e fraction digits. */
  lemma {:induction false} ComposeShape(negative: bool, c: nat, e: int) returns (whole: string, frac: string)
    ensures ComposeText(negative, c, e) == Numeral(negative, whole, frac)
    ensures AllDigits(whole) && AllDigits(frac) && whole != "" && |frac| == if e < 0 then -e else 0
    ensures Mag(Digits(whole) + Digits(frac), |whole|) == Times(c, Pow10(e))
    ensures c > 0 || e <= 0 ==> CanonicalInt(whole)
  {
    var ds := NatToDigits(c);
    ShapeText(negative, c, e);
    ShapeDigits(ds, e);
    DigitsToNatIsMag(ds, |ds| + e);
    whole, frac := WholeOf(ds, e), FracOf(ds, e);
    assert ds[0] == 0 ==> c == 0;
  }

  lemma {:induction false} WholeShape(ds: seq<Digit>, zs: seq<Digit>)
    requires forall i :: 0 <= i < |zs| ==> zs[i] == 0
    ensures var whole := Chars(ds) + Chars(zs);
            AllDigits(whole) && Mag(Digits(whole) + Digits(""), |whole|) == Mag(ds, |ds| + |zs|)
  {
    assert Chars(ds) + Chars(zs) == Chars(ds + zs);
    ParseOfChars(ds + zs);
    MagPadded([], ds, zs, |ds| + |zs|);
    assert [] + ds + zs == ds + zs + Digits("");
  }

  lemma {:induction false} FrontShape(zs: seq<Digit>, ds: seq<Digit>)
    requires forall i :: 0 <= i < |zs| ==> zs[i] == 0
    ensures var frac := Chars(zs) + Chars(ds);
            AllDigits(frac) && Mag(Digits("0") + Digits(frac), 1) == Mag(ds, -|zs|)
  {
    assert Chars(zs) + Chars(ds) == Chars(zs + ds);
    ParseOfChars(zs + ds);
    FrontZeros(zs, ds);
    assert Digits("0") == [0];
  }

  /** Composing denotes the number, in every case of the shifting. */
  lemma {:induction false} ComposeValue(p: Parts, text: string)
    requires text == ComposeText(p.negative, BytesToNat(p.coefficient), p.exponent)
    ensures IsDecimal(text) && TextValue(text) == PartsValue(p)
    ensures BytesToNat(p.coefficient) > 0 || p.exponent <= 0 ==> IsPlain(text)
  {
    var whole, frac := ComposeShape(p.negative, BytesToNat(p.coefficient), p.exponent);
    NumeralParts(p.negative, whole, frac);
    NumeralValue(p.negative, whole, frac, Times(BytesToNat(p.coefficient), Pow10(p.exponent)));
  }

  lemma {:induction false} PointIn(negative: bool, whole: string, frac: string)
    requires AllDigits(whole) && whole != ""
    ensures var s := Numeral(negative, whole, frac);
            && IndexOf(s, '.') == |Sign(negative)| + |whole|
            && (frac != "" ==> |s| == |Sign(negative)| + |whole| + 1 + |frac|)
            && (frac == "" ==> |s| == |Sign(negative)| + |whole|)
  {
    var rest := if frac == "" then "" else "." + frac;
    DigitsHaveNoPoint(whole, rest);
    var s := Numeral(negative, whole, frac);
    assert s == Sign(negative) + (whole + rest);
    assert negative ==> s[1..] == whole + rest;
    assert !negative ==> s == whole + rest;
  }

  /** Taking a numeral apart: the point is dropped and counted. */
  lemma {:induction false} DecomposeNumeral(negative: bool, whole: string, frac: string)
    requires AllDigits(whole) && AllDigits(frac) && whole != "" && |frac| < 0x8000_0000
    ensures var c := DigitsToNat(Digits(whole) + Digits(frac));
            DecomposeText(Numeral(negative, whole, frac)) ==
              if c == 0 then Parts(FINITE, false, [], 0) else Parts(FINITE, negative, NatToBytes(c), -|frac|)
  {
    assert Digits(whole + frac) == Digits(whole) + Digits(frac);
    hide WithoutPoint, PointExponent, Numeral, DigitsToNat, Digits, NatToBytes, Magnitude;
    NumeralInteger(negative, whole, frac);
  }

  lemma {:induction false} WithoutPointIs(negative: bool, whole: string, frac: string)
    requires AllDigits(whole) && whole != ""
    ensures WithoutPoint(Numeral(negative, whole, frac)) == Sign(negative) + (whole + frac)
  {
    hide IndexOf, AllDigits;
    PointIn(negative, whole, frac);
    hide Sign;
    CutPoint(Sign(negative), whole, frac);
  }

  lemma {:induction false} CutPoint(sign: string, whole: string, frac: string)
    ensures var a := sign + whole;
            var s := a + ("." + frac);
            s[..|a|] + s[|a| + 1..] == sign + (whole + frac) && (frac == "" ==> a + "" == sign + (whole + frac))
  {
    var a := sign + whole;
    var s := a + ("." + frac);
    assert s[..|a|] == a && s[|a| + 1..] == frac;
  }

  lemma {:induction false} NumeralInteger(negative: bool, whole: string, frac: string)
    requires AllDigits(whole) && AllDigits(frac) && whole != "" && |frac| < 0x8000_0000
    ensures var s := Numeral(negative, whole, frac); var t := WithoutPoint(s);
            && Magnitude(t) == whole + frac && IsInteger(t) && (t[0] == '-' <==> negative)
            && PointExponent(s) == -|frac|
  {
    assert AllDigits(whole + frac);
    hide IndexOf, Numeral, WithoutPoint, AllDigits, Magnitude, Sign;
    WithoutPointIs(negative, whole, frac);
    SignedDigits(negative, whole + frac);
    NumeralExponent(negative, whole, frac);
  }

  lemma {:induction false} SignedDigits(negative: bool, d: string)
    requires AllDigits(d) && d != ""
    ensures var t := Sign(negative) + d; t != "" && Magnitude(t) == d && IsInteger(t) && (t[0] == '-' <==> negative)
  {
    var t := Sign(negative) + d;
    assert IsDigitChar(d[0]);
    assert if negative then t[0] == '-' && t[1..] == d else t == d;
  }

  lemma {:induction false} NumeralExponent(negative: bool, whole: string, frac: string)
    requires AllDigits(whole) && whole != "" && |frac| < 0x8000_0000
    ensures PointExponent(Numeral(negative, whole, frac)) == -|frac|
  {
    hide IndexOf, Numeral, Sign, AllDigits;
    PointIn(negative, whole, frac);
  }

  /** Taking apart what was put together is the identity exactly up to exponent zero. */
  lemma {:induction false} DecomposeComposed(p: Parts)
    requires p.form == FINITE && -INT32_LIMIT < p.exponent
    requires p.coefficient != [] && p.coefficient[0] != 0
    ensures DecomposeText(ComposeText(p.negative, BytesToNat(p.coefficient), p.exponent)) == p <==> p.exponent <= 0
  {
    hide ComposeText, DecomposeText, DigitsToNat, Mag, NatToBytes, BytesToNat, Times, Pow10, Digits, AllDigits, Numeral;
    var c := BytesToNat(p.coefficient);
    BytesUnique(p.coefficient);
    var whole, frac := ComposeShape(p.negative, c, p.exponent);
    DecomposeNumeral(p.negative, whole, frac);
    var d := DigitsToNat(Digits(whole) + Digits(frac));
    DigitsToNatIsMag(Digits(whole) + Digits(frac), |whole|);
    Pow10Positive(p.exponent);
    if p.exponent <= 0 {
      TimesInjective(c, d, Pow10(p.exponent));
    }
  }

  lemma {:induction false} TimesInjective(m: nat, n: nat, e: real)
    requires Times(m, e) == Times(n, e)
    ensures e > 0.0 ==> m == n
  {
    if e > 0.0 && m < n {
      UnitGap(m, n, e);
    } else if e > 0.0 && n < m {
      UnitGap(n, m, e);
    }
  }

  /** A plain numeral is determined by its sign, its value and the number of its
      fraction digits. */
  lemma {:induction false} PlainUnique(s: string, t: string)
    requires IsPlain(s) && IsPlain(t) && IsNegative(s) == IsNegative(t)
    requires TextValue(s) == TextValue(t) && |FracPart(s)| == |FracPart(t)|
    ensures s == t
  {
    var w, f, x, g := IntPart(s), FracPart(s), IntPart(t), FracPart(t);
    NumeralOfParts(s);
    NumeralOfParts(t);
    CanonicalWholeLength(w, f, x, g);
    CanonicalWholeLength(x, g, w, f);
    var a, b := Digits(w) + Digits(f), Digits(x) + Digits(g);
    MagInjective(a, b, |w|);
    assert a[..|w|] == Digits(w) && b[..|w|] == Digits(x);
    assert a[|w|..] == Digits(f) && b[|w|..] == Digits(g);
    assert Chars(Digits(w)) == Chars(Digits(x)) && Chars(Digits(f)) == Chars(Digits(g));
  }

  /** Putting together what was taken apart gives the text back exactly when it
      is a plain numeral, for every text that is not a zero. */
  lemma {:induction false} ComposeDecomposed(s: string, p: Parts, text: string)
    requires |s| < 0x8000_0000 && p == DecomposeText(s) && p.form == FINITE && p.coefficient != []
    requires text == ComposeText(p.negative, BytesToNat(p.coefficient), p.exponent)
    ensures text == s <==> IsPlain(s)
  {
    ComposeValue(p, text);
    assert BytesToNat(p.coefficient) > 0;
    if IsPlain(s) {
      PlainDecomposed(s, p);
      var whole, frac := ComposeShape(p.negative, BytesToNat(p.coefficient), p.exponent);
      NumeralParts(p.negative, whole, frac);
      PlainUnique(s, text);
    }
  }

  lemma {:induction false} PlainDecomposed(s: string, p: Parts)
    requires IsPlain(s) && |s| < 0x8000_0000 && p == DecomposeText(s) && p.coefficient != []
    ensures PartsValue(p) == TextValue(s) && p.negative == IsNegative(s) && p.exponent == -|FracPart(s)|
  {
    hide DecomposeText, DigitsToNat, Mag, NatToBytes, BytesToNat, Times, Pow10, Digits, Numeral, IntPart, FracPart;
    var w, f := IntPart(s), FracPart(s);
    NumeralOfParts(s);
    PointIn(IsNegative(s), w, f);
    DecomposeNumeral(IsNegative(s), w, f);
    DigitsToNatIsMag(Digits(w) + Digits(f), |w|);
  }
}
