/** The encoders of Go and C, byte for byte, and what C prints read again in C. */
module EncodersAgree {
  import opened Decimals
  import opened OciFormat
  import opened OdpiNumber
  import OciParts
  import OciScan
  import OciRoundTrip
  import OdpiRoundTrip
  import opened Words

  // ----- one number, one set of parts -----

  lemma {:induction false} SamePoint(a: seq<Digit>, p: int, b: seq<Digit>, q: int)
    requires a != [] && b != [] && a[0] != 0 && b[0] != 0 && Mag(a, p) == Mag(b, q)
    ensures p <= q
  {
    MagBounds(a, p);
    MagBounds(b, q);
    hide Mag;
    if q < p {
      Pow10Grows(q, p - 1);
    }
  }

  lemma {:induction false} SameRow(a: seq<Digit>, b: seq<Digit>, point: int)
    requires a != [] && b != [] && Trim(a) && Trim(b) && |a| <= |b| && Mag(a, point) == Mag(b, point)
    ensures a == b
  {
    hide Mag;
    MagSamePoint(a, b, point);
  }

  /** Digits without zeros at the ends, sign and point are determined by the number. */
  lemma {:induction false} PartsUnique(p: Parts, q: Parts)
    requires p.digits != [] && q.digits != [] && Trim(p.digits) && Trim(q.digits) && PartsValue(p) == PartsValue(q)
    ensures p == q
  {
    OdpiRoundTrip.NonZero(p);
    MagBounds(p.digits, p.point);
    MagBounds(q.digits, q.point);
    hide Mag;
    SamePoint(p.digits, p.point, q.digits, q.point);
    SamePoint(q.digits, q.point, p.digits, p.point);
    if |p.digits| <= |q.digits| {
      SameRow(p.digits, q.digits, p.point);
    } else {
      SameRow(q.digits, p.digits, p.point);
    }
  }

  // ----- a decimal text is a number for C -----

  lemma {:induction false} NoMark(t: string)
    requires IsDecimal(t)
    ensures MarkIndex(Unsigned(t)) == |Unsigned(t)|
  {
    var u := Unsigned(t);
    var dot := IndexOf(u, '.');
    forall k | 0 <= k < |u|
      ensures !Stops(u[k], false)
    {
      if k < dot {
        assert u[k] == IntPart(t)[k];
      } else if k > dot {
        assert u[k] == FracPart(t)[k - dot - 1];
      }
    }
    MarkIs(u, |u|);
  }

  lemma {:induction false} DecimalIsNumber(t: string)
    requires IsDecimal(t)
    ensures IsNumber(t) && Whole(t) == IntPart(t) && Fraction(t) == FracPart(t) && ExponentOf(t) == 0
    ensures NumberValue(t) == TextValue(t)
  {
    NoMark(t);
    var u := Unsigned(t);
    assert u[..|u|] == u;
    hide Mag, Digits, AllDigits, IndexOf, MarkIndex, Unsigned;
  }

  /** What C prints is parsed in C to the same digits, sign and point. */
  lemma {:induction false} TextParsed(p: Parts, charset: Charset)
    requires InRange(p) && Trim(p.digits) && p.digits != []
    ensures Answer(charset, Raw(charset, TextOf(p))) == Parsed(p)
  {
    var t := TextOf(p);
    hide TextOf, Raw, TextIn, IsNumber, NumberValue, PartsOf, Scanned, Ascii, IsDecimal, PartsValue;
    TextOfValue(p);
    DecimalIsNumber(t);
    PartsOfValue(t);
    NumberIsAscii(t);
    RawText(charset, t);
    TextFits(p);
    OdpiRoundTrip.NonZero(p);
    NoDigits(PartsOf(t));
    PartsUnique(PartsOf(t), p);
    GoodNumber(t);
    assert t != "";
  }

  lemma {:induction false} NoDigits(p: Parts)
    ensures p.digits == [] ==> PartsValue(p) == 0.0
  {
  }

  // ----- the parts in an encoding -----

  lemma {:induction false} PairUpUnpair(ps: seq<Pair>)
    ensures PairUp(Unpair(ps)) == ps
  {
    if ps != [] {
      PairUpUnpair(ps[1..]);
      assert Unpair(ps)[2..] == Unpair(ps[1..]);
      assert ps == [ps[0]] + ps[1..];
    }
  }

  lemma {:induction false} UnpairEnds(ps: seq<Pair>)
    requires ps != []
    ensures var row, n := Unpair(ps), |ps|;
            && row[0] == ps[0] / 10 && row[1] == ps[0] % 10
            && row[|row| - 2] == ps[n - 1] / 10 && row[|row| - 1] == ps[n - 1] % 10
  {
    var n := |ps|;
    UnpairAppend(ps[..n - 1], ps[n - 1]);
    assert ps == ps[..n - 1] + [ps[n - 1]];
  }

  /** A row of whole pairs, the first and the last not zero, is what the C
      encoder lines up for the digits in it. */
  lemma {:induction false} RowOfStripped(row: seq<Digit>, point: int)
    requires |row| >= 2 && |row| % 2 == 0
    requires !(row[0] == 0 && row[1] == 0) && !(row[|row| - 2] == 0 && row[|row| - 1] == 0)
    requires point % 2 == if row[0] == 0 then 1 else 0
    ensures var ds := Stripped(row); ds != [] && Trim(ds) && Row(point, ds) == row
  {
  }

  /** The parts in an encoding. */
  function PartsIn(num: seq<byte>): Parts
    requires WellFormed(num) && Pairs(num) != []
  {
    var ps := Pairs(num);
    Parts(NegativeNum(num), 2 * Exponent(num) + 2 - (if ps[0] / 10 == 0 then 1 else 0), Stripped(Unpair(ps)))
  }

  lemma {:induction false} RebuiltRow(ps: seq<Pair>, e: int, point: int, ds: seq<Digit>)
    requires ps != [] && ps[0] != 0 && ps[|ps| - 1] != 0
    requires point == 2 * e + 2 - (if ps[0] / 10 == 0 then 1 else 0) && ds == Stripped(Unpair(ps))
    ensures ds != [] && Trim(ds) && PairUp(Row(point, ds)) == ps && RowExponent(point) == e
    ensures PairMag(ps, e) == Mag(ds, point)
  {
    UnpairEnds(ps);
    PairUpUnpair(ps);
    hide Unpair, PairUp, Stripped, Mag, PairMag, Trim, Row;
    RowOfStripped(Unpair(ps), point);
    RowValue(point, ds);
  }

  /** Without pairs of zeros at the ends, an encoding is made of its parts as C
      makes it. */
  lemma {:induction false} RebuiltInC(num: seq<byte>)
    requires WellFormed(num) && num != ZERO && Pairs(num) != [] && Pairs(num)[0] != 0
             && Pairs(num)[|Pairs(num)| - 1] != 0
    ensures var q := PartsIn(num);
            && q.digits != [] && Trim(q.digits) && MIN_POINT <= q.point <= MAX_POINT && NumValue(num) == PartsValue(q)
            && PairUp(Row(q.point, q.digits)) == Pairs(num) && RowExponent(q.point) == Exponent(num)
  {
    var e, ps := Exponent(num), Pairs(num);
    hide Unpair, PairUp, Stripped, Mag, PairMag, Pairs, Trim, WellFormed, Assemble, Exponent, Row, RowExponent,
         NegativeNum;
    var q := PartsIn(num);
    DeterminedByParts(num);
    RebuiltRow(ps, e, q.point, q.digits);
  }

  // ----- the two encoders -----

  /** Every text that Go accepts is in range in C, and storable. */
  lemma {:induction false} DecimalInRange(t: string)
    requires IsDecimal(t) && |IntPart(t)| + |FracPart(t)| <= OciScan.MAX_DIGITS
    ensures IsNumber(t) && InRange(PartsOf(t)) && |PartsOf(t).digits| < MAX_DIGITS
  {
    DecimalIsNumber(t);
    hide IsDecimal, IsNumber, IntPart, FracPart, Whole, Fraction, ExponentOf, DropLead, DropBack;
    var all := AllOf(t);
    DropLeadSplits(all);
    DropBackSplits(DropLead(all));
  }

  lemma {:induction false} LastChars(s: string, ds: seq<Digit>, n: nat)
    requires AllDigits(s) && ds == Digits(s) && |s| == n >= 2
    ensures |ds| == n && (ds[n - 2] == 0 && ds[n - 1] == 0 ==> s[n - 2] == '0' && s[n - 1] == '0')
  {
    assert s[n - 2] == CharOf(ds[n - 2]) && s[n - 1] == CharOf(ds[n - 1]);
  }

  lemma {:induction false} ZeroEnd(ps: seq<Pair>)
    requires ps != [] && ps[|ps| - 1] == 0
    ensures var row := Unpair(ps); row[|row| - 2] == 0 && row[|row| - 1] == 0
  {
    UnpairEnds(ps);
  }

  lemma {:induction false} LastPair(s: string)
    requires |s| >= 2 && |s| % 2 == 0 && AllDigits(s)
    ensures var ps := PairUp(Digits(s));
            && |ps| == |s| / 2 && (ps[|ps| - 1] == 0 ==> s[|s| - 2] == '0' && s[|s| - 1] == '0')
  {
    hide PairUp, Unpair, Digits, Chars, AllDigits;
    var ds := Digits(s);
    UnpairPairUp(ds);
    LastChars(s, ds, |s|);
    var ps := PairUp(ds);
    if ps[|ps| - 1] == 0 {
      ZeroEnd(ps);
    }
  }

  lemma {:induction false} StoredEnd(t: string)
    ensures var s := OciScan.StoredText(t); |s| > 2 ==> !(s[|s| - 2] == '0' && s[|s| - 1] == '0')
  {
  }

  /** Go stores no pair of zeros at the end, but for one that stands alone. */
  lemma {:induction false} LastStored(num: seq<byte>, t: string)
    requires OciScan.Stores(num, t) && Pairs(num) != [] && Pairs(num)[0] != 0
    ensures Pairs(num)[|Pairs(num)| - 1] != 0
  {
    StoredEnd(t);
    hide PairUp, Digits, AllDigits, Pairs, Exponent, NegativeNum, HasSentinel, OciScan.StoredText,
         OciScan.AlignedPoint, IntPart;
    LastPair(OciScan.StoredText(t));
  }

  /** The first pair that C stores is not zero. */
  lemma {:induction false} FirstStored(p: Parts)
    requires InRange(p) && p.digits != [] && Trim(p.digits)
    ensures WellFormed(Body(p)) && Pairs(Body(p)) != [] && Pairs(Body(p))[0] != 0
  {
    var row := Row(p.point, p.digits);
    BodyParts(p);
    assert PairUp(row)[0] == PairOf(row[0], row[1]);
    hide Body, PairUp, Pairs, WellFormed;
    assert row[0] == 0 ==> row[1] == p.digits[0];
  }

  /** An encoding of a number, with no pair of zeros at the end, is the one of C
      exactly if it has none in front either and keeps the rule of the sentinel. */
  lemma {:induction false} SameEncoding(num: seq<byte>, p: Parts)
    requires InRange(p) && p.digits != [] && Trim(p.digits)
    requires WellFormed(num) && num != ZERO && Pairs(num) != [] && NumValue(num) == PartsValue(p)
    requires Pairs(num)[0] != 0 ==> Pairs(num)[|Pairs(num)| - 1] != 0
    ensures num == Body(p) <==> Pairs(num)[0] != 0 && SentinelRule(num)
  {
    hide PartsValue, Trim, Body, Pairs, NumValue, SentinelRule, WellFormed, PartsIn, Exponent, NegativeNum, PairUp,
         Row, RowExponent, Storable;
    BodyParts(p);
    FirstStored(p);
    if Pairs(num)[0] != 0 {
      RebuiltInC(num);
      PartsUnique(PartsIn(num), p);
      PartsInSign(num);
      OciParts.SameBytes(num, Body(p));
    }
  }

  lemma {:induction false} PartsInSign(num: seq<byte>)
    requires WellFormed(num) && Pairs(num) != []
    ensures PartsIn(num).negative == NegativeNum(num)
  {
  }

  lemma {:induction false} ParsedDigits(t: string)
    requires IsDecimal(t) && TextValue(t) != 0.0
    ensures IsNumber(t) && PartsOf(t).digits != [] && Trim(PartsOf(t).digits) && PartsValue(PartsOf(t)) == TextValue(t)
  {
    hide IsDecimal, IsNumber, TextValue, NumberValue, PartsOf, PartsValue, Trim;
    DecimalIsNumber(t);
    PartsOfValue(t);
    NoDigits(PartsOf(t));
  }

  /** A text that Go accepts is parsed in C. */
  lemma {:induction false} ParsedInC(t: string)
    requires IsDecimal(t) && |IntPart(t)| + |FracPart(t)| <= OciScan.MAX_DIGITS
    ensures IsNumber(t) && InRange(PartsOf(t)) && Answer(SingleByte, Raw(SingleByte, t)) == Parsed(PartsOf(t))
  {
    DecimalInRange(t);
    GoodNumber(t);
    NumberIsAscii(t);
    RawText(SingleByte, t);
    OciScan.CountParts(t);
  }

  /** The text in C: parsed, and encoded without the length byte. */
  method EncodeInC(t: string) returns (bytes: seq<byte>)
    requires IsDecimal(t) && |IntPart(t)| + |FracPart(t)| <= OciScan.MAX_DIGITS
    ensures IsNumber(t) && InRange(PartsOf(t)) && bytes == Body(PartsOf(t))
  {
    ParsedInC(t);
    hide IsDecimal, IsNumber, IntPart, FracPart, Answer, PartsOf, Body, Raw;
    var parsed := ParseNumberString(SingleByte, Raw(SingleByte, t));
    var value := ToOracleNumber(parsed.parts);
    bytes := value[1..];
  }

  lemma {:induction false} ZeroInC(t: string)
    requires IsDecimal(t) && IsNumber(t) && InRange(PartsOf(t)) && TextValue(t) == 0.0
    ensures Body(PartsOf(t)) == ZERO
  {
    hide IsDecimal, IsNumber, TextValue, NumberValue, PartsOf, PartsValue;
    DecimalIsNumber(t);
    PartsOfValue(t);
    var p := PartsOf(t);
    if p.digits != [] {
      OdpiRoundTrip.NonZero(p);
    }
  }

  /** Go and C store the same bytes for a text, exactly if the number is zero,
      or the text starts with no pair of zeros and does not fill 19 pairs behind
      a minus sign. */
  method EncodeBoth(input: string) returns (accepted: bool, inGo: seq<byte>, inC: seq<byte>)
    ensures accepted == OciRoundTrip.Accepted(input)
    ensures accepted ==>
              var t := OciScan.Trimmed(input);
              inGo == inC <==>
              || TextValue(t) == 0.0
              || (!OciScan.StartsWithZeroPair(t) && !(IsNegative(t) && |OciScan.StoredText(t)| == 38))
  {
    hide IsDecimal, IsNumber, IntPart, FracPart, TextValue, PartsOf, PartsValue, Trim, Body, WellFormed, Pairs,
         SentinelRule, NumValue, InRange, OciScan.Stores, OciScan.StoredText, OciScan.StartsWithZeroPair,
         OciScan.Trimmed;
    var r := OciScan.SetString(input);
    if r.Err? {
      return false, [], [];
    }
    var t := OciScan.Trimmed(input);
    accepted, inGo := true, r.num;
    inC := EncodeInC(t);
    if inGo == ZERO {
      ZeroInC(t);
    } else {
      ParsedDigits(t);
      assert OciScan.Stores(inGo, t);
      if Pairs(inGo)[0] != 0 {
        LastStored(inGo, t);
      }
      SameEncoding(inGo, PartsOf(t));
    }
  }
}
