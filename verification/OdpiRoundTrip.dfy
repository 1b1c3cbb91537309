/** The C encoder against both decoders. */
module OdpiRoundTrip {
  import opened Decimals
  import opened OciFormat
  import OciPrint
  import opened OdpiNumber
  import opened OciRoundTrip
  import opened Words

  /** The texts that go through: numbers of the grammar, in range, and not of
      40 digits around an odd point. */
  predicate Stored(charset: Charset, value: seq<byte>) {
    var s := TextIn(charset, value);
    value != [] && |value| <= Room(charset, MAX_TEXT) && IsNumber(s) && InRange(PartsOf(s)) && Storable(PartsOf(s))
  }

  lemma {:induction false} NonZero(p: Parts)
    requires p.digits != [] && p.digits[0] != 0
    ensures PartsValue(p) != 0.0
  {
    MagBounds(p.digits, p.point);
    Pow10Positive(p.point - 1);
  }

  /** The text in a buffer of its own. */
  method Printed(q: Parts, charset: Charset) returns (bytes: seq<byte>)
    requires InRange(q)
    ensures bytes == Raw(charset, TextOf(q))
  {
    TextFits(q);
    hide TextOf, Raw;
    var buffer := new byte[Room(charset, MAX_TEXT)];
    var ok, length := AsText(q, charset, buffer, buffer.Length);
    bytes := buffer[..length];
  }

  lemma {:induction false} ZeroPrinted(p: Parts)
    requires InRange(p) && p.digits == []
    ensures Body(p) == ZERO && TextOf(Parts(false, 1, [0])) == "0" && PartsValue(p) == 0.0
  {
  }

  /** Both printers give the one canonical text. */
  lemma {:induction false} SameTexts(p: Parts, inGo: string)
    requires InRange(p) && Trim(p.digits) && p.digits != []
    requires WellFormed(Body(p)) ==> IsDecimal(inGo) && TextValue(inGo) == NumValue(Body(p))
    requires WellFormed(Body(p)) && NumValue(Body(p)) != 0.0 ==> IsCanonical(inGo)
    ensures inGo == TextOf(p) && IsCanonical(inGo) && TextValue(inGo) == PartsValue(p)
  {
    TextOfValue(p);
    BodyParts(p);
    NonZero(p);
    hide TextOf, Body, IsDecimal, WellFormed, NumValue, PartsValue;
    CanonicalUnique(TextOf(p), inGo);
  }

  /** Encoded in C, a number is printed alike by C and by Go. */
  method PrintStored(p: Parts, charset: Charset) returns (ok: bool, inC: seq<byte>, inGo: string)
    requires InRange(p) && Trim(p.digits)
    ensures ok == Storable(p)
    ensures ok ==> inC == Raw(charset, inGo) && IsCanonical(inGo) && TextValue(inGo) == PartsValue(p)
  {
    inC, inGo := [], "";
    hide Body, TextOf, IsCanonical, IsDecimal, TextValue, PartsValue, WellFormed, NumValue, Raw, Storable;
    var stored := ToOracleNumber(p);
    var q;
    ok, q := ReadStored(p);
    if !ok {
      return;
    }
    inC := Printed(q, charset);
    inGo := OciPrint.Print(stored[1..]);
    assert stored[1..] == Body(p);
    if p.digits == [] {
      ZeroPrinted(p);
      ZeroIsCanonical();
    } else {
      SameTexts(p, inGo);
    }
  }

  lemma {:induction false} AnswerParts(charset: Charset, value: seq<byte>)
    requires Answer(charset, value).Parsed?
    ensures var s := TextIn(charset, value);
            IsNumber(s) && Answer(charset, value).parts == PartsOf(s) && InRange(PartsOf(s))
  {
    hide IsNumber, PartsOf, TextIn, LongExponent;
  }

  /** A text parsed, encoded and printed in C comes out as it does in Go, in
      the bytes of the character set it came in; it is the canonical text of
      the number, and a buffer of 172 characters holds it. */
  method PrintBoth(charset: Charset, value: seq<byte>) returns (ok: bool, inC: seq<byte>, inGo: string)
    ensures ok == Stored(charset, value)
    ensures ok ==>
            inC == Raw(charset, inGo) && IsCanonical(inGo) && TextValue(inGo) == NumberValue(TextIn(charset, value))
  {
    hide TextIn, IsNumber, Answer, PartsOf, Raw, NumberValue, Storable, InRange, Trim;
    AnswersNumbers(charset, value);
    var r := ParseNumberString(charset, value);
    if r.Failed? {
      return false, [], "";
    }
    AnswerParts(charset, value);
    PartsOfValue(TextIn(charset, value));
    ok, inC, inGo := PrintStored(r.parts, charset);
  }

  /** A text that denotes zero has no digits left, and yet it goes through only
      when its exponent and its fraction keep the point in range: "0e200" and
      "0e-130" are refused. */
  lemma {:induction false} ZeroStored(charset: Charset, value: seq<byte>)
    requires value != [] && |value| <= Room(charset, MAX_TEXT)
    requires IsNumber(TextIn(charset, value)) && NumberValue(TextIn(charset, value)) == 0.0
    ensures var s := TextIn(charset, value);
            PartsOf(s).digits == []
              && (Stored(charset, value) <==> MIN_POINT <= ExponentOf(s) - |Fraction(s)| <= MAX_POINT)
  {
    hide ExponentOf, Fraction, AllOf, IsNumber, NumberValue, PartsValue, DropLead, DropBack, TextIn;
    var s := TextIn(charset, value);
    PartsOfValue(s);
    var p := PartsOf(s);
    if p.digits != [] {
      NonZero(p);
    }
    DropBackSplits(DropLead(AllOf(s)));
    DropLeadSplits(AllOf(s));
    assert DropLead(AllOf(s)) == [];
  }

  /** A digit, the exponent mark, a sign if there is one, and three digits. */
  lemma {:induction false} ShortNumber(s: string, d: char, sign: string, x: string)
    requires s == [d] + "e" + sign + x && IsDigitChar(d) && (sign == "" || sign == "-") && AllDigits(x) && |x| == 3
    ensures IsNumber(s) && !LongExponent(s) && !IsNegative(s) && Fraction(s) == "" && AllOf(s) == [DigitOf(d)]
    ensures ExponentOf(s) == (if sign == "-" then 0 - DigitsToNat(Digits(x)) as int else DigitsToNat(Digits(x)) as int)
  {
    assert Unsigned(s) == s && s[0] == d && s[1] == 'e';
    MarkIs(s, 1);
    assert Coefficient(s) == [d];
    PointIs([d], 1);
    assert Whole(s) == [d] && Fraction(s) == "";
    assert AfterMark(s) == sign + x;
    assert sign == "" ==> IsDigitChar(x[0]) && sign + x == x;
    assert sign == "-" ==> (sign + x)[1..] == x;
    assert ExponentDigits(s) == x;
    assert Digits([d]) + Digits("") == [DigitOf(d)];
    hide DigitsToNat;
  }

  lemma {:induction false} NumberOf(x: string, a: Digit, b: Digit, c: Digit)
    requires AllDigits(x) && Digits(x) == [a, b, c]
    ensures DigitsToNat(Digits(x)) == 100 * a as int + 10 * b as int + c as int
  {
    assert [a][..0] == [] && DigitsToNat([a]) == a as int;
    assert [a, b][..1] == [a] && DigitsToNat([a, b]) == 10 * a as int + b as int;
    assert [a, b, c][..2] == [a, b];
  }

  lemma {:induction false} ShortParts(s: string, d: Digit)
    requires IsNumber(s) && AllOf(s) == [d] && Fraction(s) == ""
    ensures PartsOf(s).point == ExponentOf(s) + if d == 0 then 0 else 1
  {
    assert [d][1..] == [] && DropLead([]) == [];
    assert DropLead([d]) == if d == 0 then [] else [d];
  }

  /** The answer to a text of ASCII characters in single bytes. */
  method Ask(s: string) returns (r: ParseResult)
    requires IsNumber(s) && 0 < |s| <= MAX_TEXT && !InRange(PartsOf(s))
    ensures r == Answer(SingleByte, Raw(SingleByte, s)) == Failed(NoRepresentation)
  {
    hide *;
    NumberIsAscii(s);
    RawText(SingleByte, s);
    GoodNumber(s);
    AnswerIs(s);
    r := ParseNumberString(SingleByte, Raw(SingleByte, s));
  }

  lemma {:induction false} AnswerIs(s: string)
    requires 0 < |s| <= MAX_TEXT && TextIn(SingleByte, Raw(SingleByte, s)) == s
    ensures Answer(SingleByte, Raw(SingleByte, s)) == Scanned(s)
  {
    hide Scanned, TextIn;
  }

  lemma {:induction false} ExponentParts(s: string, d: char, sign: string, x: string, a: Digit, b: Digit, c: Digit)
    requires s == [d] + "e" + sign + x && IsDigitChar(d) && (sign == "" || sign == "-")
    requires AllDigits(x) && Digits(x) == [a, b, c]
    ensures var e := 100 * a as int + 10 * b as int + c as int;
            && IsNumber(s)
            && PartsOf(s).point == (if sign == "-" then -e else e) + if d == '0' then 0 else 1
  {
    hide *;
    ShortNumber(s, d, sign, x);
    NumberOf(x, a, b, c);
    ShortParts(s, DigitOf(d));
    ZeroDigit(d);
  }

  /** A text of one digit and an exponent that takes the point out of range is refused. */
  method RefusedExponent(d: char, sign: string, x: string, ghost a: Digit, ghost b: Digit, ghost c: Digit)
    returns (r: ParseResult)
    requires IsDigitChar(d) && (sign == "" || sign == "-") && AllDigits(x) && Digits(x) == [a, b, c]
    requires var e := 100 * a as int + 10 * b as int + c as int;
             var point := (if sign == "-" then -e else e) + if d == '0' then 0 else 1;
             !(MIN_POINT <= point <= MAX_POINT)
    ensures r == Answer(SingleByte, Raw(SingleByte, [d] + "e" + sign + x)) == Failed(NoRepresentation)
  {
    var s := [d] + "e" + sign + x;
    assert |s| <= 6;
    hide IsNumber, PartsOf, Digits, AllDigits;
    ExponentParts(s, d, sign, x, a, b, c);
    r := Ask(s);
  }

  /** Zeros with an exponent out of range, and a number too small, are refused:
      "0e200", "0e-130" and "1e-131". */
  method RefusedExponents() returns (large: ParseResult, small: ParseResult, tiny: ParseResult)
    ensures large == Answer(SingleByte, Raw(SingleByte, "0e200")) == Failed(NoRepresentation)
    ensures small == Answer(SingleByte, Raw(SingleByte, "0e-130")) == Failed(NoRepresentation)
    ensures tiny == Answer(SingleByte, Raw(SingleByte, "1e-131")) == Failed(NoRepresentation)
  {
    hide Answer, Raw;
    assert ['0'] + "e" + "" + "200" == "0e200" && ['0'] + "e" + "-" + "130" == "0e-130";
    assert ['1'] + "e" + "-" + "131" == "1e-131";
    large := RefusedExponent('0', "", "200", 2, 0, 0);
    small := RefusedExponent('0', "-", "130", 1, 3, 0);
    tiny := RefusedExponent('1', "-", "131", 1, 3, 1);
  }

  lemma {:induction false} ZeroDigit(d: char)
    requires IsDigitChar(d)
    ensures DigitOf(d) == 0 <==> d == '0'
  {
  }

  /** No digit is needed at all: a lone minus sign is parsed, as a negative zero. */
  method LoneSign() returns (r: ParseResult)
    ensures r == Parsed(Parts(true, 0, []))
  {
    assert TextIn(SingleByte, [45]) == "-";
    assert Unsigned("-") == "" && Coefficient("-") == "" && Whole("-") == "" && Fraction("-") == "" && !HasMark("-");
    r := ParseNumberString(SingleByte, [45]);
  }

  /** Half a character is nothing, and nothing is a zero once its bytes have been counted. */
  method HalfCharacter(b: byte) returns (r: ParseResult)
    ensures r == Parsed(Parts(false, 0, []))
  {
    r := ParseNumberString(Utf16(false), [b]);
  }
}
