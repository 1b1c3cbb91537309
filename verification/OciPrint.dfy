/** `OCINum.Print`: from the NUMBER format to decimal text. */
module OciPrint {
  import opened Decimals
  import opened OciFormat
  import opened Words

  /** Byte subtraction wraps around. */
  function WireDigit(negative: bool, b: byte): byte { Decoded(negative, b) % 256 }

  function Pointed(s: string, k: nat): string
    requires k <= |s|
  {
    s[..k] + "." + s[k..]
  }

  /** A byte in decimal, at least two characters wide. */
  function PairText(j: nat): (s: string)
    ensures |s| >= 2
  {
    if j < 10 then "0" + [CharOf(j)] else Chars(NatToDigits(j))
  }

  lemma {:induction false} TwoDigitText(p: Pair)
    ensures PairText(p) == Chars([p / 10, p % 10])
  {
    if p >= 10 {
      assert NatToDigits(p) == [p / 10, p % 10] by { assert NatToDigits(p / 10) == [p / 10]; }
    }
  }

  lemma {:induction false} CharsConcat(a: seq<Digit>, b: seq<Digit>)
    ensures Chars(a + b) == Chars(a) + Chars(b)
  {
  }

  lemma {:induction false} DigitsConcat(a: string, b: string)
    requires AllDigits(a) && AllDigits(b)
    ensures AllDigits(a + b) && Digits(a + b) == Digits(a) + Digits(b)
  {
  }

  /** What the loop over the mantissa has written after `i` pairs. */
  ghost function Rendered(ps: seq<Pair>, exp: int, i: nat): string
    requires i <= |ps|
  {
    if i == 0 then ""
    else if i - 1 == exp then Rendered(ps, exp, i - 1) + PairText(ps[i - 1]) + "."
    else Rendered(ps, exp, i - 1) + PairText(ps[i - 1])
  }

  lemma {:induction false} TextAppend(ps: seq<Pair>, i: nat)
    requires i < |ps|
    ensures Chars(Unpair(ps[..i + 1])) == Chars(Unpair(ps[..i])) + PairText(ps[i])
  {
    assert ps[..i + 1] == ps[..i] + [ps[i]];
    UnpairAppend(ps[..i], ps[i]);
    CharsConcat(Unpair(ps[..i]), [ps[i] / 10, ps[i] % 10]);
    TwoDigitText(ps[i]);
  }

  lemma {:induction false} PointedAppend(s: string, t: string, k: nat)
    requires k <= |s|
    ensures Pointed(s + t, k) == Pointed(s, k) + t
  {
  }

  /** The point stands right after pair number `exp`. */
  lemma {:induction false} RenderedPoint(ps: seq<Pair>, exp: int, i: nat)
    requires i <= |ps|
    ensures var s := Chars(Unpair(ps[..i]));
            Rendered(ps, exp, i) == if 0 <= exp < i then Pointed(s, 2 * exp + 2) else s
  {
    hide Unpair, Chars, PairText, Pointed;
    if i > 0 {
      RenderedPoint(ps, exp, i - 1);
      TextAppend(ps, i - 1);
      var s, t := Chars(Unpair(ps[..i - 1])), PairText(ps[i - 1]);
      if i - 1 == exp {
        PointedLast(s + t);
      } else if 0 <= exp < i {
        PointedAppend(s, t, 2 * exp + 2);
      }
    }
  }

  lemma {:induction false} PointedLast(s: string)
    ensures Pointed(s, |s|) == s + "."
  {
  }

  lemma {:induction false} RenderedStep(ps: seq<Pair>, exp: int, i: nat, j: int)
    requires i < |ps| && j == ps[i]
    ensures Rendered(ps, exp, i + 1) == Rendered(ps, exp, i) + PairText(j) + (if i == exp then "." else "")
  {
  }

  ghost predicate HasPoint(s: string) { '.' in s }

  lemma {:induction false} PointThere(s: string)
    ensures HasPoint(s) <==> '.' in s
  {
  }

  lemma {:induction false} KeepsPoint(s: string, t: string)
    ensures HasPoint(s) ==> HasPoint(s + t)
    ensures t == "." ==> HasPoint(s + t)
  {
    if '.' in s {
      var k :| 0 <= k < |s| && s[k] == '.';
      assert (s + t)[k] == '.';
    } else if t == "." {
      assert (s + t)[|s|] == '.';
    }
  }

  /** One pair, with the point behind it where it belongs. */
  method RenderPair(before: string, j: byte, atPoint: bool) returns (digits: string)
    ensures digits == before + PairText(j) + if atPoint then "." else ""
    ensures |digits| >= |before| + 2 && (HasPoint(before) || atPoint ==> HasPoint(digits))
  {
    hide HasPoint;
    KeepsPoint(before, PairText(j));
    digits := before + PairText(j);
    if atPoint {
      if |digits| == 0 {
        digits := digits + "0";
      }
      KeepsPoint(digits, ".");
      digits := digits + ".";
    } else {
      assert digits + "" == digits;
    }
  }

  /** Rendering i pairs of an encoding gives these digits. */
  ghost predicate Renders(negative: bool, m: seq<byte>, ps: seq<Pair>, exp: int, i: nat, digits: string)
    requires i <= |m|
  {
    Matches(negative, m, ps) ==> |ps| == |m| && digits == Rendered(ps, exp, i)
  }

  lemma {:induction false} RendersNone(negative: bool, m: seq<byte>, ps: seq<Pair>, exp: int)
    ensures Renders(negative, m, ps, exp, 0, "")
  {
  }

  lemma {:induction false} RendersStep(negative: bool, m: seq<byte>, ps: seq<Pair>, exp: int, i: nat, before: string,
          digits: string)
    requires i < |m| && Renders(negative, m, ps, exp, i, before)
    requires digits == before + PairText(WireDigit(negative, m[i])) + if i == exp then "." else ""
    ensures Renders(negative, m, ps, exp, i + 1, digits)
  {
    hide Matches, WireDigit, PairText, Rendered;
    if Matches(negative, m, ps) {
      WireIs(negative, m, ps, i);
      RenderedStep(ps, exp, i, WireDigit(negative, m[i]));
    }
  }

  lemma {:induction false} WireIs(negative: bool, m: seq<byte>, ps: seq<Pair>, i: nat)
    requires Matches(negative, m, ps) && i < |m|
    ensures |ps| == |m| && WireDigit(negative, m[i]) == ps[i]
  {
  }

  method RenderPairs(negative: bool, m: seq<byte>, exp: int, ghost ps: seq<Pair>)
    returns (digits: string, dotWritten: bool)
    ensures dotWritten <==> 0 <= exp < |m|
    ensures |digits| >= 2 * |m| && (dotWritten ==> '.' in digits)
    ensures Matches(negative, m, ps) ==> digits == Rendered(ps, exp, |m|)
  {
    hide PairText, Renders, HasPoint, WireDigit, Matches, Rendered;
    digits, dotWritten := "", false;
    RendersNone(negative, m, ps, exp);
    for i := 0 to |m|
      invariant dotWritten <==> 0 <= exp < i
      invariant |digits| >= 2 * i && (dotWritten ==> HasPoint(digits))
      invariant Renders(negative, m, ps, exp, i, digits)
    {
      ghost var before := digits;
      digits := RenderPair(digits, WireDigit(negative, m[i]), i == exp);
      RendersStep(negative, m, ps, exp, i, before, digits);
      dotWritten := dotWritten || i == exp;
    }
    RendersAll(negative, m, ps, exp, digits);
    PointThere(digits);
  }

  lemma {:induction false} RendersAll(negative: bool, m: seq<byte>, ps: seq<Pair>, exp: int, digits: string)
    requires Renders(negative, m, ps, exp, |m|, digits)
    ensures Matches(negative, m, ps) ==> digits == Rendered(ps, exp, |m|)
  {
  }

  /** A digit buffer with its point: what stands before it, what stands after it,
      and the number it denotes. */
  ghost predicate Reads(digits: string, whole: string, frac: string, v: real) {
    && digits == whole + "." + frac
    && AllDigits(whole) && AllDigits(frac) && whole != ""
    && Mag(Digits(whole) + Digits(frac), |whole|) == v
  }

  /** The point stands inside the digits. */
  lemma {:induction false} PointInside(ps: seq<Pair>, exp: int)
    requires 0 <= exp < |ps|
    ensures var s, k := Chars(Unpair(ps)), 2 * exp + 2;
            Reads(Pointed(s, k), s[..k], s[k..], PairMag(ps, exp))
  {
    var s, k := Chars(Unpair(ps)), 2 * exp + 2;
    DigitsConcat(s[..k], s[k..]);
    assert s[..k] + s[k..] == s;
    ParseOfChars(Unpair(ps));
    PairMagIsMag(ps, exp);
  }

  /** The point stands behind digits filled up with zeros. */
  lemma {:induction false} PointBehind(ps: seq<Pair>, exp: int, whole: string)
    requires exp >= |ps| && whole == Chars(Unpair(ps)) + Chars(Zeros(2 * (exp - |ps| + 1)))
    ensures Reads(whole + ".", whole, "", PairMag(ps, exp))
  {
    var z := Zeros(2 * (exp - |ps| + 1));
    CharsConcat(Unpair(ps), z);
    ParseOfChars(Unpair(ps) + z);
    MagPadded([], Unpair(ps), z, |whole|);
    assert [] + Unpair(ps) + z == Unpair(ps) + z;
    assert Digits(whole) + Digits("") == Digits(whole);
    PairMagIsMag(ps, exp);
    assert whole + "." == whole + "." + "";
  }

  /** The point stands before the digits, after a zero. */
  lemma {:induction false} PointBefore(ps: seq<Pair>, exp: int, frac: string)
    requires exp < 0 && frac == Chars(Zeros(-2 * exp - 2)) + Chars(Unpair(ps))
    ensures Reads("0." + frac, "0", frac, PairMag(ps, exp))
  {
    var z := Zeros(-2 * exp - 2);
    CharsConcat(z, Unpair(ps));
    ParseOfChars(z + Unpair(ps));
    FrontZeros(z, Unpair(ps));
    PairMagIsMag(ps, exp);
    assert "0" + "." + frac == "0." + frac;
    assert Digits("0") == [0];
  }

  /** Zeros from the last stored pair up to the point. */
  method FillZeros(rendered: string, len: nat, exp: int) returns (digits: string)
    ensures digits == rendered + Chars(Zeros(if exp < len then 0 else 2 * (exp - len + 1)))
  {
    digits := rendered;
    var i := len - 1;
    while i < exp
      invariant len - 1 <= i && (i <= exp || i == len - 1)
      invariant digits == rendered + Chars(Zeros(2 * (i - len + 1)))
    {
      digits := digits + "00";
      assert Zeros(2 * (i - len + 1)) + [0, 0] == Zeros(2 * (i - len + 2));
      CharsConcat(Zeros(2 * (i - len + 1)), [0, 0]);
      i := i + 1;
    }
  }

  /** "0." and zeros up to length `dexp`. */
  method LeadingZeros(dexp: nat) returns (lead: string)
    requires dexp >= 2
    ensures lead == "0." + Chars(Zeros(dexp - 2))
  {
    lead := "0.";
    for k := 2 to dexp
      invariant lead == "0." + Chars(Zeros(k - 2))
    {
      assert Zeros(k - 2) + [0] == Zeros(k - 1);
      CharsConcat(Zeros(k - 2), [0]);
      lead := lead + "0";
    }
  }

  /** The point, where the loop did not write it. */
  method PlacePoint(rendered: string, dotWritten: bool, len: nat, exp: int) returns (digits: string)
    requires dotWritten <==> 0 <= exp < len
    requires |rendered| >= 2 * len && (dotWritten ==> '.' in rendered)
    ensures '.' in digits
    ensures dotWritten ==> digits == rendered
    ensures exp < 0 ==> digits == "0." + Chars(Zeros(-2 * exp - 2)) + rendered
    ensures exp >= len && |rendered| == 2 * len ==>
              digits == rendered + Chars(Zeros(2 * (exp - len + 1))) + "."
  {
    digits := FillZeros(rendered, len, exp);
    if !dotWritten {
      if exp < 0 {
        var lead := LeadingZeros(-exp * 2);
        digits := lead + digits;
        assert digits[1] == '.';
      } else {
        var place := (exp + 1) * 2;
        digits := digits[..place] + "." + digits[place..];
        assert digits[place] == '.';
      }
    }
  }

  /** Wherever the point was written, the digits read as the number. */
  lemma {:induction false} PointedValue(ps: seq<Pair>, exp: int, digits: string) returns (whole: string, frac: string)
    requires 0 <= exp < |ps| ==> digits == Rendered(ps, exp, |ps|)
    requires exp < 0 ==> digits == "0." + Chars(Zeros(-2 * exp - 2)) + Rendered(ps, exp, |ps|)
    requires exp >= |ps| ==> digits == Rendered(ps, exp, |ps|) + Chars(Zeros(2 * (exp - |ps| + 1))) + "."
    ensures Reads(digits, whole, frac, PairMag(ps, exp))
  {
    hide Rendered, Unpair, Chars, PairMag, Reads;
    var s := Chars(Unpair(ps));
    RenderedPoint(ps, exp, |ps|);
    assert ps[..|ps|] == ps;
    if exp < 0 {
      whole, frac := "0", Chars(Zeros(-2 * exp - 2)) + s;
      PointBefore(ps, exp, frac);
      assert digits == "0." + frac;
    } else if exp < |ps| {
      whole, frac := s[..2 * exp + 2], s[2 * exp + 2..];
      PointInside(ps, exp);
    } else {
      whole, frac := s + Chars(Zeros(2 * (exp - |ps| + 1))), "";
      PointBehind(ps, exp, whole);
    }
  }

  /** Zeros in front are dropped, but never the digit before the point. */
  method StripFront(buffer: string, ghost whole: string, ghost frac: string, ghost v: real)
    returns (digits: string, ghost kept: string)
    requires '.' in buffer
    ensures '.' in digits
    ensures Reads(buffer, whole, frac, v) ==> Reads(digits, kept, frac, v) && CanonicalInt(kept)
  {
    digits := buffer;
    kept := whole;
    while |digits| > 2 && digits[0] == '0' && digits[1] != '.'
      invariant '.' in digits
      invariant Reads(buffer, whole, frac, v) ==> Reads(digits, kept, frac, v)
      decreases |digits|
    {
      if Reads(buffer, whole, frac, v) {
        DropZero(digits, kept, frac, v);
        kept := kept[1..];
      }
      assert digits == [digits[0]] + digits[1..];
      digits := digits[1..];
    }
    if Reads(buffer, whole, frac, v) {
      StripDone(digits, kept, frac, v);
    }
  }

  lemma {:induction false} DropZero(digits: string, whole: string, frac: string, v: real)
    requires |digits| > 2 && digits[0] == '0' && digits[1] != '.' && Reads(digits, whole, frac, v)
    ensures Reads(digits[1..], whole[1..], frac, v)
  {
    assert digits[0] == whole[0];
    assert digits[|whole|] == '.';
    assert digits[1..] == whole[1..] + "." + frac;
    MagPadded([0], Digits(whole[1..]) + Digits(frac), [], |whole| - 1);
    assert Digits(whole) == [0] + Digits(whole[1..]);
    assert Digits(whole) + Digits(frac) == [0] + (Digits(whole[1..]) + Digits(frac)) + [];
  }

  lemma {:induction false} StripDone(digits: string, whole: string, frac: string, v: real)
    requires Reads(digits, whole, frac, v)
    requires !(|digits| > 2 && digits[0] == '0' && digits[1] != '.')
    ensures CanonicalInt(whole)
  {
    assert digits[0] == whole[0];
    assert |whole| > 1 ==> digits[1] == whole[1] && IsDigitChar(whole[1]);
    assert |whole| == 1 ==> whole == [whole[0]];
  }

  /** Zeros behind the point go, and then a point with nothing behind it. */
  method TrimBack(buffer: string, ghost sign: string, ghost whole: string, ghost frac: string, ghost v: real)
    returns (res: string, ghost kept: string)
    requires '.' in buffer
    ensures buffer == sign + (whole + "." + frac) && Reads(whole + "." + frac, whole, frac, v) ==>
              && res == sign + whole + (if kept == "" then "" else "." + kept)
              && AllDigits(kept) && (kept != "" ==> kept[|kept| - 1] != '0')
              && Mag(Digits(whole) + Digits(kept), |whole|) == v
  {
    res, kept := buffer, frac;
    ghost var valid := buffer == sign + (whole + "." + frac) && Reads(whole + "." + frac, whole, frac, v);
    while res[|res| - 1] == '0'
      invariant '.' in res
      invariant valid ==> res == sign + (whole + "." + kept) && Reads(whole + "." + kept, whole, kept, v)
      decreases |res|
    {
      if valid {
        DropLastZero(sign, whole, kept, v);
        kept := kept[..|kept| - 1];
      }
      assert res == res[..|res| - 1] + [res[|res| - 1]];
      res := res[..|res| - 1];
    }
    if valid && kept != "" {
      assert res[|res| - 1] == kept[|kept| - 1];
      assert IsDigitChar(kept[|kept| - 1]);
      assert res == sign + whole + ("." + kept);
    }
    if res[|res| - 1] == '.' {
      res := res[..|res| - 1];
    }
  }

  lemma {:induction false} DropLastZero(sign: string, whole: string, frac: string, v: real)
    requires Reads(whole + "." + frac, whole, frac, v)
    requires var res := sign + (whole + "." + frac); res[|res| - 1] == '0'
    ensures frac != ""
    ensures var res, kept := sign + (whole + "." + frac), frac[..|frac| - 1];
            res[..|res| - 1] == sign + (whole + "." + kept) && Reads(whole + "." + kept, whole, kept, v)
  {
    var n := |frac|;
    if n > 0 {
      var kept := frac[..n - 1];
      assert frac == kept + ['0'];
      assert Digits(frac) == Digits(kept) + [0];
      MagPadded([], Digits(whole) + Digits(kept), [0], |whole|);
      assert [] + (Digits(whole) + Digits(kept)) + [0] == Digits(whole) + Digits(frac);
    }
  }

  lemma {:induction false} RenderedLength(ps: seq<Pair>, exp: int, i: nat)
    requires i <= |ps|
    ensures |Rendered(ps, exp, i)| == 2 * i + (if 0 <= exp < i then 1 else 0)
  {
    hide PairText, Chars;
    if i > 0 {
      RenderedLength(ps, exp, i - 1);
      TwoDigitText(ps[i - 1]);
    }
  }

  /** Everything after the header: point, zeros, sign. */
  method PrintDigits(negative: bool, m: seq<byte>, exp: int, ghost ps: seq<Pair>) returns (res: string)
    ensures Matches(negative, m, ps) ==> Prints(res, negative, PairMag(ps, exp))
  {
    ghost var valid, v := Matches(negative, m, ps), PairMag(ps, exp);
    var rendered, dotWritten := RenderPairs(negative, m, exp, ps);
    var digits := PlacePoint(rendered, dotWritten, |m|, exp);
    ghost var whole, frac, kept := "", "", "";
    if valid {
      RenderedLength(ps, exp, |m|);
      whole, frac := PointedValue(ps, exp, digits);
    }
    digits, kept := StripFront(digits, whole, frac, v);
    var sign := if negative then "-" else "";
    res, frac := TrimBack(sign + digits, sign, kept, frac, v);
    if valid {
      assert res == Numeral(negative, kept, frac);
      NumeralValue(negative, kept, frac, v);
    }
  }

  /** The text denotes the signed number, canonically unless it is zero. */
  ghost predicate Prints(res: string, negative: bool, v: real) {
    IsDecimal(res) && TextValue(res) == Signed(negative, v) && (v != 0.0 ==> IsCanonical(res))
  }

  /** `OCINum.Print`.  The text denotes the number, and it is the canonical
      text of every number but a stored zero. */
  method Print(num: seq<byte>) returns (res: string)
    ensures |num| < 2 && num != ZERO ==> res == ""
    ensures num == ZERO ==> res == "0"
    ensures WellFormed(num) ==> IsDecimal(res) && TextValue(res) == NumValue(num)
    ensures WellFormed(num) && NumValue(num) != 0.0 ==> IsCanonical(res)
  {
    if |num| == 0 {
      return "";
    }
    if num == ZERO {
      return "0";
    }
    if |num| < 2 {
      return "";
    }
    var b, m := num[0], num[1..];
    var negative := b / 128 == 0;
    var exp: int := b % 128;
    if negative {
      exp := 127 - b % 128;
      if m[|m| - 1] == SENTINEL {
        m := m[..|m| - 1];
      }
    }
    exp := exp - 65;
    assert m == Mantissa(num) && negative == NegativeNum(num) && exp == Exponent(num);
    res := PrintDigits(negative, m, exp, if WellFormed(num) then Pairs(num) else []);
  }
}
