/** The C codec of ODPI: NUMBER format to and from sign, decimal digits and
    the position of the decimal point. */
module OdpiNumber {
  import opened Decimals
  import opened OciFormat
  import opened Words

  const MAX_DIGITS := 40
  const MAX_TEXT := 172
  const MIN_POINT := -129
  const MAX_POINT := 126

  /** The value is 0.d0 d1 d2 ... times ten to the `point`, with the sign. */
  datatype Parts = Parts(negative: bool, point: int, digits: seq<Digit>)

  ghost function PartsValue(p: Parts): real { Signed(p.negative, Mag(p.digits, p.point)) }

  /** No zeros at either end. */
  predicate Trim(ds: seq<Digit>) { ds != [] ==> ds[0] != 0 && ds[|ds| - 1] != 0 }

  // ----- dpiDataBuffer__toOracleNumberFromText, after the parser -----

  function Lead(point: int): seq<Digit> { if point % 2 == 1 then [0] else [] }

  /** Digits lined up in pairs around the point. */
  function Row(point: int, ds: seq<Digit>): (row: seq<Digit>)
    ensures |row| % 2 == 0
  {
    var front := Lead(point) + ds;
    if |front| % 2 == 1 then front + [0] else front
  }

  function RowExponent(point: int): int { (point + |Lead(point)|) / 2 - 1 }

  lemma {:induction false} RowValue(point: int, ds: seq<Digit>)
    ensures PairMag(PairUp(Row(point, ds)), RowExponent(point)) == Mag(ds, point)
  {
    hide Mag, PairMag, PairUp, Unpair;
    var row, lead := Row(point, ds), Lead(point);
    UnpairPairUp(row);
    PairMagIsMag(PairUp(row), RowExponent(point));
    var back := row[|lead| + |ds|..];
    assert row == lead + ds + back;
    MagPadded(lead, ds, back, point);
  }

  /** The stored body, without the length byte. */
  function Body(p: Parts): seq<byte>
    requires MIN_POINT <= p.point <= MAX_POINT
  {
    if p.digits == [] then ZERO
    else
      var ps := PairUp(Row(p.point, p.digits));
      Assemble(p.negative, RowExponent(p.point), ps, p.negative && |ps| < MAX_MANTISSA)
  }

  /** Remainder and quotient round toward zero in C. */
  function CRem2(n: int): int { if n >= 0 then n % 2 else -((-n) % 2) }

  function CDiv2(n: int): int { if n >= 0 then n / 2 else -((-n) / 2) }

  /** One more byte of the mantissa. */
  lemma {:induction false} NextByte(negative: bool, row: seq<Digit>, i: nat, b: int, m: seq<byte>)
    requires |row| % 2 == 0 && 2 * i + 1 < |row| && b == PairOf(row[2 * i], row[2 * i + 1])
    requires m == EncodedAll(negative, PairUp(row[..2 * i]))
    ensures 0 <= b < 100 && m + [if negative then 101 - b else b + 1] == EncodedAll(negative, PairUp(row[..2 * i + 2]))
  {
    hide PairUp, EncodedAll, PairOf, Encoded;
    PairFacts(row[2 * i], row[2 * i + 1], negative);
    NextPair(negative, row, 2 * i);
  }

  lemma {:induction false} PairFacts(x: Digit, y: Digit, negative: bool)
    ensures 0 <= PairOf(x, y) < 100 && PairOf(x, y) == x as int * 10 + y as int
    ensures Encoded(negative, PairOf(x, y)) == if negative then 101 - PairOf(x, y) else PairOf(x, y) + 1
  {
  }

  lemma {:induction false} NoBytes(negative: bool, row: seq<Digit>)
    ensures EncodedAll(negative, PairUp(row[..0])) == []
  {
  }

  lemma {:induction false} RowDigits(digits: seq<Digit>, prependZero: bool, row: seq<Digit>, k: nat)
    requires k + 1 < |row|
    requires if prependZero then |digits| == |row| && row == [0] + digits[..|row| - 1] else row == digits
    ensures row[k + 1] == if prependZero then digits[k] else digits[k + 1]
    ensures row[k] == if !prependZero then digits[k] else if k == 0 then 0 else digits[k - 1]
  {
  }

  /** The mantissa loop: the first byte takes a single digit when a zero was put in front. */
  method EncodeMantissa(negative: bool, digits: seq<Digit>, numPairs: nat, prependZero: bool, ghost row: seq<Digit>)
    returns (m: seq<byte>)
    requires |row| == 2 * numPairs
    requires prependZero ==> |digits| == |row| && numPairs > 0 && row == [0] + digits[..|row| - 1]
    requires !prependZero ==> row == digits
    ensures m == EncodedAll(negative, PairUp(row))
  {
    hide PairUp, EncodedAll, Encoded, PairOf;
    m := [];
    var source := 0;
    NoBytes(negative, row);
    for i := 0 to numPairs
      invariant source == if prependZero && i > 0 then 2 * i - 1 else 2 * i
      invariant m == EncodedAll(negative, PairUp(row[..2 * i]))
    {
      var b: int;
      RowDigits(digits, prependZero, row, 2 * i);
      PairFacts(row[2 * i], row[2 * i + 1], negative);
      if i == 0 && prependZero {
        b := digits[source];
        source := source + 1;
      } else {
        b := digits[source] as int * 10;
        source := source + 1;
        b := b + digits[source];
        source := source + 1;
      }
      NextByte(negative, row, i, b, m);
      if negative {
        b := 101 - b;
      } else {
        b := b + 1;
      }
      m := m + [b];
    }
    assert row[..2 * numPairs] == row;
  }

  /** The remainder of a negative number is not positive. */
  lemma {:induction false} OddPoint(point: int)
    ensures point % 2 == 1 <==> (point > 0 && CRem2(point) == 1) || (point < 0 && CRem2(point) == -1)
  {
  }

  /** Zeros appended for a zero in front and for an odd number of digits. */
  method PadDigits(p: Parts) returns (digits: seq<Digit>, point: int, prependZero: bool)
    ensures prependZero <==> p.point % 2 == 1
    ensures |digits| <= |p.digits| + 2 && (p.digits == [] ==> digits == [])
    ensures p.digits != [] ==>
              var row := Row(p.point, p.digits);
              && |digits| == |row| > 0 && point == p.point + |Lead(p.point)|
              && if prependZero then row == [0] + digits[..|row| - 1] else row == digits
  {
    OddPoint(p.point);
    hide CRem2;
    digits, point := p.digits, p.point;
    prependZero := (point > 0 && CRem2(point) == 1) || (point < 0 && CRem2(point) == -1);
    if prependZero && |digits| != 0 {
      digits := digits + [0];
      point := point + 1;
    }
    if |digits| % 2 == 1 {
      digits := digits + [0];
    }
  }

  lemma {:induction false} EvenPoint(original: int, point: int)
    requires MIN_POINT <= original <= MAX_POINT && point == original + |Lead(original)|
    ensures CDiv2(point - 2) == RowExponent(original) && -65 <= RowExponent(original) <= 62
  {
    assert point % 2 == 0;
  }

  method PackExponent(negative: bool, point: int, ghost original: int) returns (exponent: byte)
    requires MIN_POINT <= original <= MAX_POINT && point == original + |Lead(original)|
    ensures exponent == ExponentByte(negative, RowExponent(original))
  {
    EvenPoint(original, point);
    hide CDiv2, RowExponent, Lead;
    exponent := (CDiv2(point - 2) + 193) % 256;
    if negative {
      exponent := 255 - exponent;
    }
  }

  /** Exactly when the stored value is one that can be read again: 40 digits
      around an odd point need 21 base-100 digits. */
  predicate Storable(p: Parts) { !(|p.digits| == MAX_DIGITS && p.point % 2 == 1) }

  /** The room for a number: a length byte and 21 more. */
  const NUMBER_SIZE := 22

  /** The length byte is the number of bytes that follow it; what is written
      fits the room for it exactly when it can be read again. */
  method ToOracleNumber(p: Parts) returns (value: seq<byte>)
    requires MIN_POINT <= p.point <= MAX_POINT && |p.digits| <= MAX_DIGITS
    ensures value == [|Body(p)|] + Body(p)
    ensures |value| <= NUMBER_SIZE <==> Storable(p)
  {
    BodyFits(p);
    var digits, point, prependZero := PadDigits(p);
    hide Row, Lead, RowExponent, ExponentByte, EncodedAll, PairUp, Storable, Body;
    var numPairs := |digits| / 2;
    var appendSentinel := p.negative && |digits| > 0 && |digits| < MAX_DIGITS;
    var length: byte := numPairs + 1 + if appendSentinel then 1 else 0;
    if |digits| == 0 {
      EmptyBody(p);
      return [length, 128];
    }
    var exponent := PackExponent(p.negative, point, p.point);
    var m := EncodeMantissa(p.negative, digits, numPairs, prependZero, Row(p.point, p.digits));
    value := [length, exponent] + m + (if appendSentinel then [SENTINEL] else []);
    BodyBytes(p, exponent, m, appendSentinel, length);
  }

  lemma {:induction false} BodyBytes(p: Parts, exponent: byte, m: seq<byte>, sentinel: bool, length: byte)
    requires MIN_POINT <= p.point <= MAX_POINT && p.digits != []
    requires exponent == ExponentByte(p.negative, RowExponent(p.point))
    requires m == EncodedAll(p.negative, PairUp(Row(p.point, p.digits)))
    requires sentinel <==> p.negative && |m| < MAX_MANTISSA
    requires length == |m| + 1 + if sentinel then 1 else 0
    ensures [length, exponent] + m + (if sentinel then [SENTINEL] else []) == [|Body(p)|] + Body(p)
  {
    hide Row, RowExponent, ExponentByte, EncodedAll, PairUp;
    assert Body(p) == [exponent] + m + if sentinel then [SENTINEL] else [];
    hide Body;
    assert [length, exponent] + m + (if sentinel then [SENTINEL] else []) ==
           [length] + ([exponent] + m + if sentinel then [SENTINEL] else []);
  }

  // ----- dpiUtils__parseOracleNumber -----

  datatype ParseResult = Parsed(parts: Parts) | Failed(error: ParseError)
  datatype ParseError = InvalidNumber | StringTooLong | NotSupported | NoRepresentation

  /** What the digits of a mantissa become: a zero in front and a zero behind are dropped. */
  function Stripped(row: seq<Digit>): seq<Digit>
    requires |row| >= 2
  {
    var front := if row[0] == 0 then row[1..] else row;
    if row[|row| - 1] == 0 then front[..|front| - 1] else front
  }

  lemma {:induction false} StrippedLength(row: seq<Digit>)
    requires |row| >= 2
    ensures |Stripped(row)| <= |row|
  {
  }

  lemma {:induction false} Int8Wraps(n: int)
    requires -384 <= n < 384
    ensures Int8(n) == if n < -128 then n + 256 else if n < 128 then n else n - 256
  {
  }

  /** The sign, and the exponent as a signed byte. */
  method UnpackExponent(b: byte) returns (negative: bool, exponent: int)
    ensures negative == (b < 128) && exponent == (if negative then 127 - b as int else b as int - 128) - 65
  {
    Int8Wraps(b);
    Int8Wraps(-Int8(b) - 1);
    Int8Wraps((if b < 128 then -Int8(b) - 1 else Int8(b)) - 193);
    assert (b / 128) % 2 == 0 <==> b < 128;
    hide Int8;
    exponent := Int8(b);
    negative := (b / 128) % 2 == 0;
    if negative {
      exponent := Int8(-exponent - 1);
    }
    exponent := Int8(exponent - 193);
  }

  /** The mantissa bytes as the decoder takes them, in eight bits: base-100
      digits, or more where the bytes are no encoding. */
  function Taken(negative: bool, m: seq<byte>): (bs: seq<byte>)
    ensures |bs| == |m| && forall i :: 0 <= i < |m| ==> bs[i] == Decoded(negative, m[i]) % 256
  {
    seq(|m|, i requires 0 <= i < |m| => Decoded(negative, m[i]) % 256)
  }

  /** The digits of a byte before its last one. */
  function Upper(b: byte, first: bool): seq<int> {
    if b / 10 == 0 && first then [] else if b / 10 == 10 then [1, 0] else [b / 10]
  }

  function Lower(b: byte, last: bool): seq<int> { if b % 10 == 0 && last then [] else [b % 10] }

  /** What the loop has written after `i` bytes. */
  ghost function Written(bs: seq<byte>, i: nat): seq<int>
    requires i <= |bs|
  {
    if i == 0 then [] else Written(bs, i - 1) + Upper(bs[i - 1], i == 1) + Lower(bs[i - 1], i == |bs|)
  }

  /** How many of the first `i` bytes have three digits that are written. */
  function Carries(bs: seq<byte>, i: nat): nat
    requires i <= |bs|
  {
    if i == 0 then 0 else Carries(bs, i - 1) + if bs[i - 1] / 10 == 10 then 1 else 0
  }

  /** Two digits a byte, three for 100 to 109, less a zero at either end. */
  function DigitCount(bs: seq<byte>): int {
    if bs == [] then 0
    else
      2 * |bs| + Carries(bs, |bs|) - (if bs[0] < 10 then 1 else 0) - (if bs[|bs| - 1] % 10 == 0 then 1 else 0)
  }

  lemma {:induction false} WrittenLength(bs: seq<byte>, i: nat)
    requires i <= |bs|
    ensures i < |bs| ==> |Written(bs, i)| == 2 * i + Carries(bs, i) - (if i > 0 && bs[0] < 10 then 1 else 0)
    ensures i == |bs| ==> |Written(bs, i)| == DigitCount(bs)
  {
    if i > 0 {
      WrittenLength(bs, i - 1);
    }
  }

  lemma {:induction false} WrittenNext(bs: seq<byte>, i: nat)
    requires i < |bs|
    ensures Written(bs, i + 1) == Written(bs, i) + Upper(bs[i], i == 0) + Lower(bs[i], i + 1 == |bs|)
    ensures Carries(bs, i + 1) == Carries(bs, i) + if bs[i] / 10 == 10 then 1 else 0
  {
  }

  lemma {:induction false} WrittenNone(bs: seq<byte>)
    ensures Written(bs, 0) == [] && Carries(bs, 0) == 0
  {
  }

  /** One byte of the mantissa: counts and point are adjusted, digits written. */
  method DecodeByte(b: byte, first: bool, last: bool, count: int, start: int, before: seq<int>)
    returns (numDigits: int, point: int, digits: seq<int>)
    ensures digits == before + Upper(b, first) + Lower(b, last)
    ensures numDigits == count + |digits| - |before| - 2
    ensures point == start + (if b / 10 == 10 then 1 else 0) - (if first && b < 10 then 1 else 0)
  {
    numDigits, point, digits := count, start, before;
    var digit := b / 10;
    if digit == 0 && first {
      numDigits := numDigits - 1;
      point := point - 1;
    } else if digit == 10 {
      numDigits := numDigits + 1;
      point := point + 1;
      digits := digits + [1];
      digits := digits + [0];
    } else {
      digits := digits + [digit];
    }
    assert digits == before + Upper(b, first);
    digit := b % 10;
    if digit == 0 && last {
      numDigits := numDigits - 1;
    } else {
      digits := digits + [digit];
    }
  }

  /** The mantissa loop; `point` comes in for a leading digit pair. */
  method DecodeMantissa(negative: bool, m: seq<byte>, start: int) returns (numDigits: int, point: int, digits: seq<int>)
    requires m != []
    ensures var bs := Taken(negative, m);
            && digits == Written(bs, |bs|) && numDigits == |digits| == DigitCount(bs)
            && point == start + Carries(bs, |bs|) - (if bs[0] < 10 then 1 else 0)
  {
    hide Written, Carries, Upper, Lower, DigitCount;
    numDigits, point, digits := |m| * 2, start, [];
    ghost var bs := Taken(negative, m);
    WrittenNone(bs);
    for i := 0 to |m|
      invariant numDigits == |digits| + 2 * (|m| - i)
      invariant digits == Written(bs, i)
      invariant point == start + Carries(bs, i) - (if i > 0 && bs[0] < 10 then 1 else 0)
    {
      WrittenNext(bs, i);
      var b := Decoded(negative, m[i]) % 256;
      numDigits, point, digits := DecodeByte(b, i == 0, i == |m| - 1, numDigits, point, digits);
    }
    WrittenLength(bs, |bs|);
  }

  lemma {:induction false} NothingTaken(negative: bool)
    ensures var bs := Taken(negative, []);
            bs == [] && Written(bs, 0) == [] && DigitCount(bs) == 0 && Carries(bs, 0) == 0
  {
  }

  lemma {:induction false} PairsTaken(body: seq<byte>)
    requires WellFormed(body)
    ensures Taken(NegativeNum(body), Mantissa(body)) == Pairs(body)
  {
  }

  lemma {:induction false} NoCarries(ps: seq<Pair>, i: nat)
    requires i <= |ps|
    ensures Carries(ps, i) == 0
  {
    if i > 0 {
      NoCarries(ps, i - 1);
    }
  }

  lemma {:induction false} WrittenInside(ps: seq<Pair>, i: nat)
    requires 1 <= i < |ps|
    ensures var row := Unpair(ps[..i]);
            Written(ps, i) == if row[0] == 0 then row[1..] else row
  {
    var p := ps[i - 1];
    UnpairAppend(ps[..i - 1], p);
    assert ps[..i] == ps[..i - 1] + [p];
    if i == 1 {
      assert ps[..0] == [] && Unpair(ps[..1]) == [p / 10, p % 10];
    } else {
      WrittenInside(ps, i - 1);
    }
  }

  /** The loop drops one zero in front and one behind. */
  lemma {:induction false} WrittenAll(ps: seq<Pair>)
    requires ps != []
    ensures Written(ps, |ps|) == Stripped(Unpair(ps))
  {
    var n := |ps|;
    var p := ps[n - 1];
    UnpairAppend(ps[..n - 1], p);
    assert ps == ps[..n - 1] + [p];
    if n == 1 {
      assert ps[..0] == [] && Unpair(ps) == [p / 10, p % 10];
    } else {
      WrittenInside(ps, n - 1);
    }
  }

  /** `dpiUtils__parseOracleNumber` on a value that holds as many bytes as its first byte says. */
  method ParseOracleNumber(value: seq<byte>)
    returns (ok: bool, negative: bool, point: int, digits: seq<int>)
    requires |value| >= 2 && (1 <= value[0] <= 21 ==> |value| > value[0])
    ensures ok <==> 1 <= value[0] <= 21
    ensures ok ==>
              var body := value[1..value[0] + 1];
              && negative == NegativeNum(body)
              && (|body| == 1 ==> if negative then point == 127 && digits == [1] else point == 1 && digits == [0])
              && (|body| > 1 ==>
                    var bs := Taken(negative, Mantissa(body));
                    && |bs| <= 20 && digits == Written(bs, |bs|) && |digits| == DigitCount(bs)
                    && point == 2 * Exponent(body) + 2 + Carries(bs, |bs|) - (if bs != [] && bs[0] < 10 then 1 else 0))
              && (WellFormed(body) && Pairs(body) != [] ==>
                    && digits == Stripped(Unpair(Pairs(body))) && |digits| <= MAX_DIGITS
                    && point == 2 * Exponent(body) + 2 - (if Pairs(body)[0] / 10 == 0 then 1 else 0))
  {
    hide Unpair, Stripped, Written, Pairs, Carries, DigitCount, Taken;
    ok, negative, point, digits := false, false, 0, [];
    var length := (value[0] as int - 1) % 256;
    if length > 20 {
      return;
    }
    ok := true;
    var exponent;
    negative, exponent := UnpackExponent(value[1]);
    point := exponent * 2 + 2;
    ghost var body := value[1..value[0] + 1];
    if length == 0 {
      if negative {
        digits := [1];
        point := 127;
      } else {
        point := 1;
        digits := [0];
      }
      return;
    }
    var m := value[2..length + 2];
    assert m == body[1..];
    if negative && m[length - 1] == SENTINEL {
      m := m[..length - 1];
    }
    assert m == Mantissa(body);
    if m == [] {
      NothingTaken(negative);
      return;
    }
    var numDigits;
    numDigits, point, digits := DecodeMantissa(negative, m, point);
    if WellFormed(body) {
      PairsTaken(body);
      NoCarries(Pairs(body), |Pairs(body)|);
      WrittenAll(Pairs(body));
      StrippedLength(Unpair(Pairs(body)));
    }
  }

  lemma {:induction false} AllCarry(bs: seq<byte>, i: nat)
    requires i <= |bs| && forall k :: 0 <= k < |bs| ==> bs[k] / 10 == 10
    ensures Carries(bs, i) == i
  {
    if i > 0 {
      AllCarry(bs, i - 1);
    }
  }

  /** Twenty bytes that stand for 101 each: sixty digits, where forty are the most
      that a number has. */
  method WideExample() returns (ok: bool, negative: bool, point: int, digits: seq<int>)
    ensures ok && !negative && |digits| == 60 > MAX_DIGITS
  {
    var m: seq<byte> := seq(20, _ => 102);
    var value: seq<byte> := [21, 193] + m;
    ghost var body := value[1..22];
    assert body == [193] + m && Mantissa(body) == m;
    ghost var bs := Taken(false, m);
    AllCarry(bs, |bs|);
    assert DigitCount(bs) == 60;
    hide Taken, DigitCount, Carries, Written, Mantissa, WellFormed;
    ok, negative, point, digits := ParseOracleNumber(value);
  }

  // ----- what was stored is what is read -----

  lemma {:induction false} BodyFits(p: Parts)
    requires MIN_POINT <= p.point <= MAX_POINT && |p.digits| <= MAX_DIGITS
    ensures 1 + |Body(p)| <= NUMBER_SIZE <==> Storable(p)
  {
    if p.digits == [] {
      EmptyBody(p);
    } else {
      BodyLength(p);
    }
  }

  lemma {:induction false} BodyParts(p: Parts)
    requires MIN_POINT <= p.point <= MAX_POINT && p.digits != [] && |p.digits| <= MAX_DIGITS
    ensures WellFormed(Body(p)) && Body(p) != ZERO && NumValue(Body(p)) == PartsValue(p)
    ensures NegativeNum(Body(p)) == p.negative && Exponent(Body(p)) == RowExponent(p.point)
    ensures Pairs(Body(p)) == PairUp(Row(p.point, p.digits))
    ensures |Body(p)| <= 21 <==> Storable(p)
    ensures SentinelRule(Body(p))
  {
    var ps := PairUp(Row(p.point, p.digits));
    BodyLength(p);
    hide PairUp, Assemble, Pairs, Exponent, WellFormed, NumValue, NegativeNum, HasSentinel, SentinelRule, Row,
         RowExponent, PairMag, Mag, Storable;
    AssembledParts(p.negative, RowExponent(p.point), ps, p.negative && |ps| < MAX_MANTISSA);
    RowValue(p.point, p.digits);
    BodySentinel(p);
  }

  lemma {:induction false} BodyLength(p: Parts)
    requires MIN_POINT <= p.point <= MAX_POINT && p.digits != [] && |p.digits| <= MAX_DIGITS
    ensures -65 <= RowExponent(p.point) <= 62 && PairUp(Row(p.point, p.digits)) != []
            && |PairUp(Row(p.point, p.digits))| <= 21
    ensures |Body(p)| <= 21 <==> Storable(p)
  {
    hide PairUp, EncodedAll, ExponentByte;
  }

  lemma {:induction false} BodySentinel(p: Parts)
    requires MIN_POINT <= p.point <= MAX_POINT && p.digits != []
    ensures SentinelRule(Body(p))
  {
    var ps := PairUp(Row(p.point, p.digits));
    hide PairUp, ExponentByte, Row;
    AssembledSplit(p.negative, RowExponent(p.point), ps, p.negative && |ps| < MAX_MANTISSA);
    hide Assemble, Mantissa, HasSentinel;
  }

  lemma {:induction false} RowStripped(point: int, ds: seq<Digit>)
    requires ds != [] && Trim(ds)
    ensures var row := Row(point, ds);
            |row| >= 2 && Stripped(row) == ds && (row[0] == 0 <==> point % 2 == 1)
  {
    if point % 2 == 1 {
      RowShape([0], ds);
    } else {
      RowShape([], ds);
    }
  }

  lemma {:induction false} RowShape(lead: seq<Digit>, ds: seq<Digit>)
    requires (lead == [0] || lead == []) && ds != [] && Trim(ds)
    ensures var front := lead + ds;
            var row := if |front| % 2 == 1 then front + [0] else front;
            |row| >= 2 && Stripped(row) == ds && (row[0] == 0 <==> lead == [0])
  {
    if |lead + ds| % 2 == 1 {
      StrippedOf(lead, ds, [0]);
    } else {
      StrippedOf(lead, ds, []);
      assert lead + ds + [] == lead + ds;
    }
  }

  lemma {:induction false} StrippedOf(lead: seq<Digit>, ds: seq<Digit>, back: seq<Digit>)
    requires (lead == [0] || lead == []) && (back == [0] || back == []) && ds != [] && Trim(ds)
             && |lead| + |ds| + |back| >= 2
    ensures var row := lead + ds + back; Stripped(row) == ds && (row[0] == 0 <==> lead == [0])
  {
    var row := lead + ds + back;
    assert row[0] == if lead == [0] then 0 else ds[0];
    assert row[|row| - 1] == if back == [0] then 0 else ds[|ds| - 1];
    var front := row[|lead|..];
    assert front == ds + back;
    assert front[..|ds|] == ds;
  }

  /** Encoding and decoding in C is the identity on every storable number. */
  method ReadStored(p: Parts) returns (ok: bool, q: Parts)
    requires MIN_POINT <= p.point <= MAX_POINT && |p.digits| <= MAX_DIGITS && Trim(p.digits)
    ensures ok <==> Storable(p)
    ensures ok && p.digits != [] ==> q == p
    ensures ok && p.digits == [] ==> q == Parts(false, 1, [0])
  {
    hide *;
    StoredParts(p);
    var value := ToOracleNumber(p);
    q := Parts(false, 0, []);
    var negative, point, digits;
    ok, negative, point, digits := ParseOracleNumber(value);
    if ok {
      assert value[1..value[0] + 1] == Body(p);
      q := Parts(negative, point, digits);
    }
  }

  /** What the decoder needs to know of the encoding. */
  lemma {:induction false} StoredParts(p: Parts)
    requires MIN_POINT <= p.point <= MAX_POINT && |p.digits| <= MAX_DIGITS && Trim(p.digits)
    ensures var b := Body(p);
            && b != [] && (|b| <= 21 <==> Storable(p))
            && (p.digits == [] ==> |b| == 1 && !NegativeNum(b))
            && (p.digits != [] ==>
                  && |b| > 1 && WellFormed(b) && Pairs(b) != [] && NegativeNum(b) == p.negative
                  && Stripped(Unpair(Pairs(b))) == p.digits
                  && p.point == 2 * Exponent(b) + 2 - (if Pairs(b)[0] / 10 == 0 then 1 else 0))
  {
    if p.digits == [] {
      EmptyBody(p);
    } else {
      BodyParts(p);
      RowStripped(p.point, p.digits);
      UnpairPairUp(Row(p.point, p.digits));
      LeadDigit(Row(p.point, p.digits));
      PointBack(p.point);
    }
    hide Body, Row, PairUp, Unpair, Stripped, NumValue, Pairs, NegativeNum, Exponent, SentinelRule, PartsValue,
         RowExponent, WellFormed;
  }

  lemma {:induction false} EmptyBody(p: Parts)
    requires MIN_POINT <= p.point <= MAX_POINT && p.digits == []
    ensures Body(p) == ZERO && !NegativeNum(Body(p)) && Storable(p)
  {
  }

  lemma {:induction false} LeadDigit(row: seq<Digit>)
    requires |row| >= 2 && |row| % 2 == 0
    ensures PairUp(row) != [] && (PairUp(row)[0] / 10 == 0 <==> row[0] == 0)
  {
    assert PairUp(row)[0] == PairOf(row[0], row[1]);
  }

  lemma {:induction false} PointBack(point: int)
    ensures point == 2 * RowExponent(point) + 2 - (if point % 2 == 1 then 1 else 0)
  {
  }

  // ----- dpiUtils__parseNumberString -----

  function DropLead(ds: seq<Digit>): (r: seq<Digit>) {
    if ds != [] && ds[0] == 0 then DropLead(ds[1..]) else ds
  }

  function DropBack(ds: seq<Digit>): (r: seq<Digit>) {
    if ds != [] && ds[|ds| - 1] == 0 then DropBack(ds[..|ds| - 1]) else ds
  }

  lemma {:induction false} DropLeadSplits(ds: seq<Digit>)
    ensures var r := DropLead(ds); |r| <= |ds| && ds == Zeros(|ds| - |r|) + r && (r != [] ==> r[0] != 0)
  {
    if ds != [] && ds[0] == 0 {
      DropLeadSplits(ds[1..]);
      assert ds == [0] + ds[1..];
    }
  }

  lemma {:induction false} DropBackSplits(ds: seq<Digit>)
    ensures var r := DropBack(ds); |r| <= |ds| && ds == r + Zeros(|ds| - |r|) && (r != [] ==> r[|r| - 1] != 0)
  {
    if ds != [] && ds[|ds| - 1] == 0 {
      DropBackSplits(ds[..|ds| - 1]);
      assert ds == ds[..|ds| - 1] + [0];
    }
  }

  lemma {:induction false} DropLeadAppend(ds: seq<Digit>, d: Digit)
    ensures DropLead(ds + [d]) == if d == 0 && DropLead(ds) == [] then [] else DropLead(ds) + [d]
  {
    if ds != [] && ds[0] == 0 {
      assert (ds + [d])[1..] == ds[1..] + [d];
      DropLeadAppend(ds[1..], d);
    } else if ds == [] {
      assert ds + [d] == [d] && [d][1..] == [];
    }
  }

  /** Where the exponent mark stands, or the end. */
  function MarkIndex(s: string): (i: nat)
    ensures i <= |s| && (i < |s| ==> s[i] == 'e' || s[i] == 'E')
    ensures forall k :: 0 <= k < i ==> s[k] != 'e' && s[k] != 'E'
  {
    if s == "" || s[0] == 'e' || s[0] == 'E' then 0 else 1 + MarkIndex(s[1..])
  }

  /** The text before the exponent mark, without sign, and the text behind it. */
  function Coefficient(s: string): string { Unsigned(s)[..MarkIndex(Unsigned(s))] }

  function Whole(s: string): string { WholeIn(Coefficient(s)) }

  function Fraction(s: string): string { FractionIn(Coefficient(s)) }

  predicate HasMark(s: string) { MarkIndex(Unsigned(s)) < |Unsigned(s)| }

  function AfterMark(s: string): string
    requires HasMark(s)
  {
    Unsigned(s)[MarkIndex(Unsigned(s)) + 1..]
  }

  function ExponentDigits(s: string): string
    requires HasMark(s)
  {
    var x := AfterMark(s);
    if x != "" && (x[0] == '+' || x[0] == '-') then x[1..] else x
  }

  /** Digits, point, digits, exponent of one to three digits.  No digit is
      required before or after the point. */
  predicate IsNumber(s: string) {
    && AllDigits(Whole(s)) && AllDigits(Fraction(s))
    && (HasMark(s) ==> AllDigits(ExponentDigits(s)) && 1 <= |ExponentDigits(s)| <= 3)
  }

  function ExponentOf(s: string): int
    requires IsNumber(s)
  {
    if HasMark(s) then
      var n: int := DigitsToNat(Digits(ExponentDigits(s)));
      if AfterMark(s)[0] == '-' then -n else n
    else 0
  }

  function AllOf(s: string): seq<Digit>
    requires IsNumber(s)
  {
    Digits(Whole(s)) + Digits(Fraction(s))
  }

  /** The number the text denotes. */
  ghost function NumberValue(s: string): real
    requires IsNumber(s)
  {
    Signed(IsNegative(s), Mag(AllOf(s), |Whole(s)| + ExponentOf(s)))
  }

  /** What is parsed out of the text. */
  function PartsOf(s: string): Parts
    requires IsNumber(s)
  {
    Parts(IsNegative(s), |DropLead(AllOf(s))| - |Fraction(s)| + ExponentOf(s), DropBack(DropLead(AllOf(s))))
  }

  /** The parts denote the number, and have no zeros at either end. */
  lemma {:induction false} PartsOfValue(s: string)
    requires IsNumber(s)
    ensures PartsValue(PartsOf(s)) == NumberValue(s) && Trim(PartsOf(s).digits)
  {
    hide Whole, Fraction, ExponentOf, HasMark, Digits, AllDigits, DropLead, DropBack, Mag, Trim;
    TrimmedValue(AllOf(s), |Whole(s)| + ExponentOf(s));
  }

  lemma {:induction false} ThreeRows(lead: seq<Digit>, t: seq<Digit>, back: seq<Digit>, r: seq<Digit>, all: seq<Digit>)
    requires r == t + back && all == lead + r
    ensures all == lead + t + back
  {
  }

  lemma {:induction false} TrimmedValue(all: seq<Digit>, point: int)
    ensures var r := DropLead(all); var t := DropBack(r);
            Trim(t) && Mag(t, point - |all| + |r|) == Mag(all, point)
  {
    hide Mag, DropLead, DropBack;
    var r := DropLead(all);
    var t := DropBack(r);
    DropLeadSplits(all);
    DropBackSplits(r);
    var lead, back := Zeros(|all| - |r|), Zeros(|r| - |t|);
    ThreeRows(lead, t, back, r, all);
    assert t != [] ==> t[0] == r[0];
    hide Zeros;
    MagPadded(lead, t, back, point - |lead|);
  }

  predicate InRange(p: Parts) {
    |p.digits| <= MAX_DIGITS && MIN_POINT <= p.point <= MAX_POINT
  }

  predicate Stops(c: char, atPoint: bool) { c == 'e' || c == 'E' || (atPoint && c == '.') }

  /** One more digit, unless it is a zero before all others. */
  function Push(digits: seq<Digit>, d: Digit): seq<Digit> {
    if d == 0 && digits == [] then digits else digits + [d]
  }

  lemma {:induction false} PushRead(all: seq<Digit>, read: string, c: char)
    requires AllDigits(read) && IsDigitChar(c)
    ensures AllDigits(read + [c])
    ensures DropLead(all + Digits(read + [c])) == Push(DropLead(all + Digits(read)), DigitOf(c))
  {
    assert Digits(read + [c]) == Digits(read) + [DigitOf(c)];
    assert all + Digits(read + [c]) == all + Digits(read) + [DigitOf(c)];
    DropLeadAppend(all + Digits(read), DigitOf(c));
  }

  /** The first v characters are digits, and these are what they leave. */
  ghost predicate WholeRead(u: string, v: nat, digits: seq<Digit>) {
    && v <= |u| && (forall k :: 0 <= k < v ==> !Stops(u[k], true))
    && AllDigits(u[..v]) && digits == DropLead(Digits(u[..v]))
  }

  lemma {:induction false} WholeIs(u: string, v: nat, digits: seq<Digit>)
    requires WholeRead(u, v, digits)
    ensures v <= |u| && (forall k :: 0 <= k < v ==> !Stops(u[k], true)) && AllDigits(u[..v])
            && digits == DropLead(Digits(u[..v]))
  {
  }

  lemma {:induction false} WholeStep(u: string, v: nat, digits: seq<Digit>)
    requires v < |u| && WholeRead(u, v, digits) && IsDigitChar(u[v])
    ensures WholeRead(u, v + 1, Push(digits, DigitOf(u[v])))
  {
    hide DropLead, Digits;
    PushRead([], u[..v], u[v]);
    assert u[..v + 1] == u[..v] + [u[v]];
    assert [] + Digits(u[..v]) == Digits(u[..v]) && [] + Digits(u[..v] + [u[v]]) == Digits(u[..v] + [u[v]]);
  }

  /** The loop over the digits before the point. */
  method ScanWhole(u: string) returns (ok: bool, v: nat, digits: seq<Digit>)
    ensures v <= |u| && forall k :: 0 <= k < v ==> !Stops(u[k], true)
    ensures AllDigits(u[..v])
    ensures ok <==> v == |u| || Stops(u[v], true)
    ensures !ok ==> !IsDigitChar(u[v])
    ensures ok ==> digits == DropLead(Digits(u[..v]))
  {
    v, digits := 0, [];
    assert WholeRead(u, 0, []);
    hide DropLead, Digits, AllDigits, WholeRead;
    while v < |u|
      invariant v <= |u| && WholeRead(u, v, digits)
    {
      if u[v] == '.' || u[v] == 'e' || u[v] == 'E' {
        break;
      }
      if u[v] < '0' || u[v] > '9' {
        WholeIs(u, v, digits);
        return false, v, digits;
      }
      WholeStep(u, v, digits);
      var digit := DigitOf(u[v]);
      v := v + 1;
      if digit == 0 && |digits| == 0 {
        continue;
      }
      digits := digits + [digit];
    }
    WholeIs(u, v, digits);
    ok := true;
  }

  /** The loop over the digits after the point; zeros before all others move the point. */
  method ScanFraction(f: string, before: seq<Digit>, ghost all: seq<Digit>)
    returns (ok: bool, v: nat, digits: seq<Digit>, point: int)
    requires before == DropLead(all)
    ensures v <= |f| && forall k :: 0 <= k < v ==> !Stops(f[k], false)
    ensures AllDigits(f[..v])
    ensures ok <==> v == |f| || Stops(f[v], false)
    ensures !ok ==> !IsDigitChar(f[v])
    ensures ok ==> digits == DropLead(all + Digits(f[..v])) && point == |digits| - v
  {
    hide DropLead, Digits;
    v, digits, point := 0, before, |before|;
    assert all + Digits(f[..0]) == all;
    while v < |f|
      invariant v <= |f| && forall k :: 0 <= k < v ==> !Stops(f[k], false)
      invariant AllDigits(f[..v]) && digits == DropLead(all + Digits(f[..v])) && point == |digits| - v
    {
      if f[v] == 'e' || f[v] == 'E' {
        break;
      }
      if f[v] < '0' || f[v] > '9' {
        return false, v, digits, point;
      }
      PushRead(all, f[..v], f[v]);
      assert f[..v + 1] == f[..v] + [f[v]];
      var digit := DigitOf(f[v]);
      v := v + 1;
      if digit == 0 && |digits| == 0 {
        point := point - 1;
        continue;
      }
      digits := digits + [digit];
    }
    ok := true;
  }

  /** Four digits are too many, whatever follows them. */
  function ExponentError(x: string): ParseError {
    if |x| >= 4 && AllDigits(x[..4]) then NotSupported else InvalidNumber
  }

  /** The exponent digits; four of them are too many. */
  method ScanExponent(x: string) returns (ok: bool, error: ParseError, exponent: nat)
    ensures ok <==> AllDigits(x) && 1 <= |x| <= 3
    ensures ok ==> exponent == DigitsToNat(Digits(x))
    ensures !ok ==> error == ExponentError(x)
  {
    ok, error, exponent := false, InvalidNumber, 0;
    var v := 0;
    while v < |x|
      invariant v <= |x| && v <= 3 && AllDigits(x[..v])
    {
      if x[v] < '0' || x[v] > '9' {
        return;
      }
      assert x[..v + 1] == x[..v] + [x[v]];
      if v == 3 {
        error := NotSupported;
        return;
      }
      v := v + 1;
    }
    assert x[..v] == x;
    if v == 0 {
      return;
    }
    ok, exponent := true, DigitsToNat(Digits(x));
  }

  /** Zeros at the end are not significant. */
  method StripZeros(ds: seq<Digit>) returns (digits: seq<Digit>)
    ensures digits == DropBack(ds)
  {
    digits := ds;
    while |digits| > 0 && digits[|digits| - 1] == 0
      invariant DropBack(digits) == DropBack(ds)
      decreases |digits|
    {
      digits := digits[..|digits| - 1];
    }
  }

  function WholeIn(c: string): string { c[..IndexOf(c, '.')] }

  function FractionIn(c: string): string {
    var dot := IndexOf(c, '.');
    if dot < |c| then c[dot + 1..] else ""
  }

  lemma {:induction false} MarkIs(u: string, v: nat)
    requires v <= |u| && (forall k :: 0 <= k < v ==> !Stops(u[k], false)) && (v < |u| ==> Stops(u[v], false))
    ensures MarkIndex(u) == v
  {
  }

  lemma {:induction false} PointIs(s: string, v: nat)
    requires v <= |s| && (forall k :: 0 <= k < v ==> s[k] != '.') && (v < |s| ==> s[v] == '.')
    ensures IndexOf(s, '.') == v
  {
    var i := IndexOf(s, '.');
    assert forall k :: 0 <= k < i ==> s[k] == s[..i][k];
  }

  lemma {:induction false} NoPoint(u: string, v: nat)
    requires v <= |u| && forall k :: 0 <= k < v ==> !Stops(u[k], true)
    requires v < |u| ==> Stops(u[v], false)
    ensures MarkIndex(u) == v && WholeIn(u[..v]) == u[..v] && FractionIn(u[..v]) == ""
  {
    MarkIs(u, v);
    PointIs(u[..v], v);
  }

  lemma {:induction false} BadWhole(u: string, v: nat)
    requires v < |u| && !IsDigitChar(u[v]) && forall k :: 0 <= k <= v ==> !Stops(u[k], true)
    ensures !AllDigits(WholeIn(u[..MarkIndex(u)]))
  {
    var c := u[..MarkIndex(u)];
    assert v < |c| && c[v] == u[v];
    var dot := IndexOf(c, '.');
    assert dot < |c| ==> c[dot] == u[dot];
    assert c[..dot][v] == u[v];
  }

  lemma {:induction false} PointAt(u: string, v: nat)
    requires v < |u| && u[v] == '.' && forall k :: 0 <= k < v ==> !Stops(u[k], true)
    ensures var m := MarkIndex(u); m > v && WholeIn(u[..m]) == u[..v] && FractionIn(u[..m]) == u[v + 1..m]
  {
    var m := MarkIndex(u);
    assert m < |u| ==> Stops(u[m], false);
    PointIs(u[..m], v);
  }

  /** Digits, point and digits again, up to the exponent mark. */
  method ScanCoefficient(u: string) returns (ok: bool, digits: seq<Digit>, point: int, v: nat)
    ensures var c := u[..MarkIndex(u)];
            && (ok <==> AllDigits(WholeIn(c)) && AllDigits(FractionIn(c)))
            && (ok ==> v == |c| && digits == DropLead(Digits(WholeIn(c)) + Digits(FractionIn(c)))
                       && point == |digits| - |FractionIn(c)|)
  {
    ok, v, digits := ScanWhole(u);
    point := |digits|;
    hide DropLead, Digits, AllDigits, WholeIn, FractionIn, MarkIndex;
    if !ok {
      BadWhole(u, v);
      return;
    }
    if v < |u| && u[v] == '.' {
      PointAt(u, v);
      var n;
      ghost var whole := u[..v];
      ok, n, digits, point := ScanFraction(u[v + 1..], digits, Digits(whole));
      FractionEnd(u, u[v + 1..], v, n, ok);
      v := v + 1 + n;
    } else {
      NoPoint(u, v);
      assert Digits(u[..v]) + Digits("") == Digits(u[..v]);
    }
  }

  lemma {:induction false} FractionEnd(u: string, g: string, v: nat, n: nat, ok: bool)
    requires v < |u| && g == u[v + 1..] && n <= |g| && forall k :: 0 <= k <= v ==> !Stops(u[k], false)
    requires forall k :: 0 <= k < n ==> !Stops(g[k], false)
    requires AllDigits(g[..n])
    requires ok <==> n == |g| || Stops(g[n], false)
    requires !ok ==> !IsDigitChar(g[n])
    ensures var m := MarkIndex(u);
            && m > v && (ok <==> AllDigits(u[v + 1..m]))
            && (ok ==> m == v + 1 + n && u[v + 1..m] == g[..n])
  {
    var m := MarkIndex(u);
    assert forall k :: v + 1 <= k < |u| ==> u[k] == g[k - v - 1];
    if ok {
      MarkIs(u, v + 1 + n);
      assert u[v + 1..v + 1 + n] == g[..n];
    } else {
      assert m > v + 1 + n;
      assert u[v + 1..m][n] == g[n];
    }
  }

  /** The exponent behind the mark, with its sign. */
  method ScanMarked(s: string, v: nat) returns (ok: bool, error: ParseError, exponent: int)
    requires HasMark(s) && v == MarkIndex(Unsigned(s))
    ensures ok <==> AllDigits(ExponentDigits(s)) && 1 <= |ExponentDigits(s)| <= 3
    ensures !ok ==> error == ExponentError(ExponentDigits(s))
    ensures ok ==>
              var n: int := DigitsToNat(Digits(ExponentDigits(s)));
              exponent == if AfterMark(s)[0] == '-' then -n else n
  {
    var x := Unsigned(s)[v + 1..];
    assert x == AfterMark(s);
    var negative := false;
    if x != "" && (x[0] == '+' || x[0] == '-') {
      negative := x[0] == '-';
      x := x[1..];
    }
    ok, error, exponent := ScanExponent(x);
    if negative {
      exponent := -exponent;
    }
  }

  /** A fourth exponent digit ends the scan before anything behind it is seen. */
  predicate LongExponent(s: string) {
    && AllDigits(Whole(s)) && AllDigits(Fraction(s))
    && HasMark(s) && |ExponentDigits(s)| >= 4 && AllDigits(ExponentDigits(s)[..4])
  }

  /** What a text stands for, by the grammar of numbers. */
  function Scanned(s: string): ParseResult {
    if LongExponent(s) then Failed(NotSupported)
    else if !IsNumber(s) then Failed(InvalidNumber)
    else if !InRange(PartsOf(s)) then Failed(NoRepresentation)
    else Parsed(PartsOf(s))
  }

  lemma {:induction false} BadCoefficient(s: string)
    requires !(AllDigits(Whole(s)) && AllDigits(Fraction(s)))
    ensures Scanned(s) == Failed(InvalidNumber)
  {
  }

  lemma {:induction false} BadExponent(s: string)
    requires AllDigits(Whole(s)) && AllDigits(Fraction(s)) && HasMark(s)
    requires !(AllDigits(ExponentDigits(s)) && 1 <= |ExponentDigits(s)| <= 3)
    ensures Scanned(s) == Failed(ExponentError(ExponentDigits(s)))
  {
    hide AllDigits, ExponentDigits, Whole, Fraction;
  }

  lemma {:induction false} GoodNumber(s: string)
    requires IsNumber(s)
    ensures Scanned(s) == if InRange(PartsOf(s)) then Parsed(PartsOf(s)) else Failed(NoRepresentation)
  {
    hide AllDigits, ExponentDigits, Whole, Fraction, PartsOf;
  }

  /** The scan of a text, once its size is known to be right. */
  method ParseText(s: string) returns (r: ParseResult)
    ensures r == Scanned(s)
  {
    hide DropLead, DropBack, Digits, AllDigits, DigitsToNat, MarkIndex, WholeIn, FractionIn, AfterMark,
         ExponentDigits, Scanned;
    var negative := s != "" && s[0] == '-';
    var u := if negative then s[1..] else s;
    assert u == Unsigned(s);
    var ok, digits, point, v := ScanCoefficient(u);
    if !ok {
      BadCoefficient(s);
      return Failed(InvalidNumber);
    }
    if v < |u| {
      var error, exponent;
      ok, error, exponent := ScanMarked(s, v);
      if !ok {
        BadExponent(s);
        return Failed(error);
      }
      point := point + exponent;
    }
    GoodNumber(s);
    digits := StripZeros(digits);
    if |digits| > MAX_DIGITS || point > MAX_POINT || point < MIN_POINT {
      return Failed(NoRepresentation);
    }
    r := Parsed(Parts(negative, point, digits));
  }

  // ----- the bytes of a text -----

  /** A character takes one byte, or two in the byte order of the platform. */
  datatype Charset = SingleByte | Utf16(bigEndian: bool)

  function Room(charset: Charset, chars: int): int { if charset.SingleByte? then chars else 2 * chars }

  function UnitAt(charset: Charset, value: seq<byte>, i: nat): int
    requires Room(charset, i + 1) <= |value|
  {
    match charset
    case SingleByte => value[i]
    case Utf16(true) => 256 * (value[2 * i] as int) + value[2 * i + 1] as int
    case Utf16(false) => 256 * (value[2 * i + 1] as int) + value[2 * i] as int
  }

  /** The surrogates stand for no character of their own. */
  function CharIn(u: int): char
    requires 0 <= u < 0x10000
  {
    if u < 0xD800 then u as char else '\U{FFFD}'
  }

  /** The text in the bytes; an odd byte at the end of UTF-16 is not looked at. */
  function TextIn(charset: Charset, value: seq<byte>): (s: string)
    ensures |s| == if charset.SingleByte? then |value| else |value| / 2
    ensures forall i :: 0 <= i < |s| ==> s[i] == CharIn(UnitAt(charset, value, i))
  {
    seq(if charset.SingleByte? then |value| else |value| / 2,
        i requires 0 <= i && Room(charset, i + 1) <= |value| => CharIn(UnitAt(charset, value, i)))
  }

  predicate Ascii(s: string) { forall i :: 0 <= i < |s| ==> s[i] as int <= 127 }

  function Unit(charset: Charset, c: char): (u: seq<byte>)
    ensures |u| == Room(charset, 1)
  {
    var lo, hi := c as int % 256, c as int / 256 % 256;
    match charset
    case SingleByte => [lo]
    case Utf16(true) => [hi, lo]
    case Utf16(false) => [lo, hi]
  }

  /** The bytes of a text. */
  function Raw(charset: Charset, s: string): (value: seq<byte>)
    ensures |value| == Room(charset, |s|)
  {
    if s == "" then [] else Raw(charset, s[..|s| - 1]) + Unit(charset, s[|s| - 1])
  }

  lemma {:induction false} UnitRead(charset: Charset, front: seq<byte>, c: char, i: nat)
    requires |front| == Room(charset, i) && c as int <= 127
    ensures UnitAt(charset, front + Unit(charset, c), i) == c as int
  {
  }

  lemma {:induction false} UnitKept(charset: Charset, front: seq<byte>, back: seq<byte>, i: nat)
    requires Room(charset, i + 1) <= |front|
    ensures UnitAt(charset, front + back, i) == UnitAt(charset, front, i)
  {
  }

  /** A text is read out of its bytes. */
  lemma {:induction false} RawText(charset: Charset, s: string)
    requires Ascii(s)
    ensures TextIn(charset, Raw(charset, s)) == s
  {
    hide Unit, UnitAt;
    if s != "" {
      var front, c := s[..|s| - 1], s[|s| - 1];
      RawText(charset, front);
      UnitRead(charset, Raw(charset, front), c, |front|);
      forall i | 0 <= i < |front|
        ensures TextIn(charset, Raw(charset, s))[i] == s[i]
      {
        UnitKept(charset, Raw(charset, front), Unit(charset, c), i);
        assert TextIn(charset, Raw(charset, front))[i] == front[i];
      }
    }
  }

  /** The conversion of two-byte units, given up at the first that is no ASCII character. */
  method Narrow(bigEndian: bool, value: seq<byte>) returns (ok: bool, s: string)
    ensures ok <==> Ascii(TextIn(Utf16(bigEndian), value))
    ensures ok ==> s == TextIn(Utf16(bigEndian), value)
  {
    s := "";
    ghost var text := TextIn(Utf16(bigEndian), value);
    for i := 0 to |value| / 2
      invariant s == text[..i] && Ascii(s)
    {
      var unit := UnitAt(Utf16(bigEndian), value, i);
      assert text[i] == CharIn(unit);
      if unit > 127 {
        return false, s;
      }
      s := s + [unit as char];
    }
    ok := true;
  }

  lemma {:induction false} JoinedAscii(a: string, sep: string, b: string)
    requires Ascii(a) && Ascii(sep) && Ascii(b)
    ensures Ascii(a + sep + b)
  {
  }

  lemma {:induction false} CoefficientIsAscii(c: string)
    requires AllDigits(WholeIn(c)) && AllDigits(FractionIn(c))
    ensures Ascii(c)
  {
    var dot := IndexOf(c, '.');
    JoinedAscii(WholeIn(c), if dot < |c| then "." else "", FractionIn(c));
    assert c == WholeIn(c) + (if dot < |c| then "." else "") + FractionIn(c);
  }

  lemma {:induction false} ExponentIsAscii(x: string)
    requires AllDigits(if x != "" && (x[0] == '+' || x[0] == '-') then x[1..] else x)
    ensures Ascii(x)
  {
    assert forall i :: 1 <= i < |x| ==> x[i] == x[1..][i - 1];
  }

  lemma {:induction false} SplitAtMark(u: string, m: nat)
    requires m <= |u| && Ascii(u[..m])
    requires m < |u| ==> u[m] as int <= 127 && Ascii(u[m + 1..])
    ensures Ascii(u)
  {
    forall i | 0 <= i < |u|
      ensures u[i] as int <= 127
    {
      if i < m {
        assert u[i] == u[..m][i];
      } else if i > m {
        assert u[i] == u[m + 1..][i - m - 1];
      }
    }
  }

  lemma {:induction false} UnsignedIsAscii(s: string)
    requires Ascii(Unsigned(s))
    ensures Ascii(s)
  {
    assert IsNegative(s) ==> forall i :: 1 <= i < |s| ==> s[i] == s[1..][i - 1];
  }

  lemma {:induction false} NumberIsAscii(s: string)
    requires IsNumber(s)
    ensures Ascii(s)
  {
    hide Ascii, AllDigits, IndexOf, WholeIn, FractionIn, Unsigned;
    CoefficientIsAscii(Coefficient(s));
    if HasMark(s) {
      ExponentIsAscii(AfterMark(s));
    }
    SplitAtMark(Unsigned(s), MarkIndex(Unsigned(s)));
    UnsignedIsAscii(s);
  }

  /** The answer to the bytes of a text: an empty one and one of more than 172
      characters are refused before the scan. */
  function Answer(charset: Charset, value: seq<byte>): ParseResult {
    var s := TextIn(charset, value);
    if value == [] then Failed(InvalidNumber)
    else if |value| > Room(charset, MAX_TEXT) then Failed(StringTooLong)
    else if charset.Utf16? && !Ascii(s) then Failed(InvalidNumber)
    else Scanned(s)
  }

  /** `dpiUtils__parseNumberString`. */
  method ParseNumberString(charset: Charset, value: seq<byte>) returns (r: ParseResult)
    ensures r == Answer(charset, value)
  {
    hide Scanned;
    if |value| == 0 {
      return Failed(InvalidNumber);
    }
    if (charset.Utf16? && |value| > MAX_TEXT * 2) || (!charset.Utf16? && |value| > MAX_TEXT) {
      return Failed(StringTooLong);
    }
    var s;
    if charset.Utf16? {
      var ok;
      ok, s := Narrow(charset.bigEndian, value);
      if !ok {
        return Failed(InvalidNumber);
      }
    } else {
      s := TextIn(charset, value);
    }
    r := ParseText(s);
  }

  /** Exactly the numbers of the grammar in range are parsed, in either character set. */
  lemma {:induction false} AnswersNumbers(charset: Charset, value: seq<byte>)
    ensures var s := TextIn(charset, value);
            Answer(charset, value).Parsed? <==>
              value != [] && |value| <= Room(charset, MAX_TEXT) && IsNumber(s) && InRange(PartsOf(s))
  {
    var s := TextIn(charset, value);
    hide AllDigits, Whole, Fraction, ExponentDigits, HasMark, PartsOf, TextIn, Ascii;
    if IsNumber(s) {
      NumberIsAscii(s);
    }
  }

  // ----- dpiDataBuffer__fromOracleNumberAsText, after the parser -----

  /** The text of digits around a point. */
  function TextOf(p: Parts): string {
    var n := |p.digits|;
    if p.point <= 0 then Sign(p.negative) + "0." + Chars(Zeros(-p.point)) + Chars(p.digits)
    else if p.point < n then Sign(p.negative) + Chars(p.digits[..p.point]) + "." + Chars(p.digits[p.point..])
    else Sign(p.negative) + Chars(p.digits) + Chars(Zeros(p.point - n))
  }

  /** The size computed in advance, in characters. */
  function TextLength(p: Parts): int {
    var n := |p.digits|;
    n + (if p.negative then 1 else 0)
      + (if p.point <= 0 then -p.point + 2 else if p.point < n then 1 else if p.point > n then p.point - n else 0)
  }

  lemma {:induction false} TextOfLength(p: Parts)
    ensures |TextOf(p)| == TextLength(p)
  {
  }

  /** The text denotes the number; it is canonical when no zeros stand at the ends. */
  lemma {:induction false} TextOfValue(p: Parts)
    requires p.digits != [] && p.digits[0] != 0
    ensures IsDecimal(TextOf(p)) && TextValue(TextOf(p)) == PartsValue(p)
    ensures Trim(p.digits) ==> IsCanonical(TextOf(p))
  {
    MagBounds(p.digits, p.point);
    Pow10Positive(p.point - 1);
    if p.point <= 0 {
      TextBelowOne(p);
    } else if p.point < |p.digits| {
      TextMixed(p);
    } else {
      TextWhole(p);
    }
  }

  lemma {:induction false} TextBelowOne(p: Parts)
    requires p.digits != [] && p.digits[0] != 0 && p.point <= 0 && Mag(p.digits, p.point) > 0.0
    ensures IsDecimal(TextOf(p)) && TextValue(TextOf(p)) == PartsValue(p)
    ensures Trim(p.digits) ==> IsCanonical(TextOf(p))
  {
    hide TextOf, Numeral, Mag;
    var zs := Zeros(-p.point);
    var frac := Chars(zs + p.digits);
    BelowOneShape(p);
    ParseOfChars(zs + p.digits);
    FrontZeros(zs, p.digits);
    assert Digits("0") == [0];
    assert frac[|frac| - 1] == CharOf(p.digits[|p.digits| - 1]);
    hide Chars, Digits, Zeros;
    NumeralValue(p.negative, "0", frac, Mag(p.digits, p.point));
  }

  lemma {:induction false} BelowOneShape(p: Parts)
    requires p.digits != [] && p.point <= 0
    ensures TextOf(p) == Numeral(p.negative, "0", Chars(Zeros(-p.point) + p.digits))
  {
    var zs := Zeros(-p.point);
    assert Chars(zs + p.digits) == Chars(zs) + Chars(p.digits);
    hide Chars, Zeros;
    assert Sign(p.negative) + "0" + ("." + (Chars(zs) + Chars(p.digits))) ==
           Sign(p.negative) + "0." + Chars(zs) + Chars(p.digits);
  }

  lemma {:induction false} TextMixed(p: Parts)
    requires p.digits != [] && p.digits[0] != 0 && 0 < p.point < |p.digits| && Mag(p.digits, p.point) > 0.0
    ensures IsDecimal(TextOf(p)) && TextValue(TextOf(p)) == PartsValue(p)
    ensures Trim(p.digits) ==> IsCanonical(TextOf(p))
  {
    hide Mag;
    var whole, frac := Chars(p.digits[..p.point]), Chars(p.digits[p.point..]);
    ParseOfChars(p.digits[..p.point]);
    ParseOfChars(p.digits[p.point..]);
    assert p.digits[..p.point] + p.digits[p.point..] == p.digits;
    assert TextOf(p) == Numeral(p.negative, whole, frac);
    assert whole[0] == CharOf(p.digits[0]) != '0';
    assert frac[|frac| - 1] == CharOf(p.digits[|p.digits| - 1]);
    hide TextOf, Numeral, Chars, Digits;
    NumeralValue(p.negative, whole, frac, Mag(p.digits, p.point));
  }

  lemma {:induction false} WholeShape(p: Parts)
    requires p.digits != [] && p.point >= |p.digits|
    ensures TextOf(p) == Numeral(p.negative, Chars(p.digits + Zeros(p.point - |p.digits|)), "")
  {
    var zs := Zeros(p.point - |p.digits|);
    assert Chars(p.digits + zs) == Chars(p.digits) + Chars(zs);
    hide Chars, Zeros;
    assert Sign(p.negative) + (Chars(p.digits) + Chars(zs)) + "" == Sign(p.negative) + Chars(p.digits) + Chars(zs);
    assert p.point == |p.digits| ==> zs == [];
  }

  lemma {:induction false} TextWhole(p: Parts)
    requires p.digits != [] && p.digits[0] != 0 && p.point >= |p.digits| && Mag(p.digits, p.point) > 0.0
    ensures IsDecimal(TextOf(p)) && TextValue(TextOf(p)) == PartsValue(p) && IsCanonical(TextOf(p))
  {
    hide Mag, TextOf, Numeral;
    var zs := Zeros(p.point - |p.digits|);
    var whole := Chars(p.digits + zs);
    WholeShape(p);
    ParseOfChars(p.digits + zs);
    MagPadded([], p.digits, zs, p.point);
    assert [] + p.digits + zs == Digits(whole) + Digits("");
    assert whole[0] == CharOf(p.digits[0]) != '0';
    hide Chars, Digits, Zeros;
    NumeralValue(p.negative, whole, "", Mag(p.digits, p.point));
  }

  /** The digits, with the point before digit number `point`. */
  ghost function DigitsText(ds: seq<Digit>, point: int, i: nat): string
    requires i <= |ds|
  {
    if i == 0 then ""
    else if 0 < point == i - 1 then DigitsText(ds, point, i - 1) + "." + [CharOf(ds[i - 1])]
    else DigitsText(ds, point, i - 1) + [CharOf(ds[i - 1])]
  }

  lemma {:induction false} DigitsTextLength(ds: seq<Digit>, point: int, i: nat)
    requires i <= |ds|
    ensures |DigitsText(ds, point, i)| == i + if 0 < point < i then 1 else 0
  {
    if i > 0 {
      DigitsTextLength(ds, point, i - 1);
    }
  }

  lemma {:induction false} CharsAppend(ds: seq<Digit>, a: nat, b: nat)
    requires a <= b < |ds|
    ensures Chars(ds[a..b + 1]) == Chars(ds[a..b]) + [CharOf(ds[b])]
  {
    assert ds[a..b + 1] == ds[a..b] + [ds[b]];
  }

  lemma {:induction false} DigitsTextIs(ds: seq<Digit>, point: int, i: nat)
    requires i <= |ds|
    ensures DigitsText(ds, point, i) ==
              if 0 < point < i then Chars(ds[0..point]) + "." + Chars(ds[point..i]) else Chars(ds[0..i])
  {
    hide Chars, CharOf, DigitsText;
    if i == 0 {
      DigitsTextNone(ds, point);
    } else {
      DigitsTextIs(ds, point, i - 1);
      DigitsTextNext(ds, point, i - 1, CharOf(ds[i - 1]));
      if 0 < point == i - 1 {
        LastBehindPoint(ds, point);
      } else if 0 < point < i {
        CharsAppend(ds, point, i - 1);
        PointAppend(Chars(ds[0..point]), Chars(ds[point..i - 1]), CharOf(ds[i - 1]));
      } else {
        CharsAppend(ds, 0, i - 1);
      }
    }
  }

  lemma {:induction false} DigitsTextNone(ds: seq<Digit>, point: int)
    ensures DigitsText(ds, point, 0) == Chars(ds[0..0])
  {
  }

  lemma {:induction false} DigitsTextNext(ds: seq<Digit>, point: int, i: nat, c: char)
    requires i < |ds| && c == CharOf(ds[i])
    ensures 0 < point == i ==> DigitsText(ds, point, i + 1) == DigitsText(ds, point, i) + "." + [c]
    ensures !(0 < point == i) ==> DigitsText(ds, point, i + 1) == DigitsText(ds, point, i) + [c]
  {
  }

  lemma {:induction false} LastBehindPoint(ds: seq<Digit>, k: nat)
    requires k < |ds|
    ensures Chars(ds[k..k + 1]) == [CharOf(ds[k])]
  {
    assert ds[k..k + 1] == [ds[k]];
  }

  lemma {:induction false} PointAppend(whole: string, frac: string, c: char)
    ensures whole + "." + frac + [c] == whole + "." + (frac + [c])
  {
  }

  function LeadText(p: Parts): string { Sign(p.negative) + if p.point <= 0 then "0." + Chars(Zeros(-p.point)) else "" }

  function TailText(p: Parts): string { if p.point > |p.digits| then Chars(Zeros(p.point - |p.digits|)) else "" }

  /** The text in the order in which it is written. */
  lemma {:induction false} TextPhases(p: Parts)
    ensures TextOf(p) == LeadText(p) + DigitsText(p.digits, p.point, |p.digits|) + TailText(p)
  {
    if p.point <= 0 {
      PhasesBelowOne(p);
    } else if p.point < |p.digits| {
      PhasesMixed(p);
    } else {
      PhasesWhole(p);
    }
    hide TextOf, LeadText, TailText, DigitsText;
  }

  lemma {:induction false} PhasesBelowOne(p: Parts)
    requires p.point <= 0
    ensures TextOf(p) == LeadText(p) + DigitsText(p.digits, p.point, |p.digits|) + TailText(p)
  {
    hide Chars, DigitsText, Zeros, Sign;
    DigitsTextIs(p.digits, p.point, |p.digits|);
    assert p.digits[0..|p.digits|] == p.digits;
    var s, z, d := Sign(p.negative), Chars(Zeros(-p.point)), Chars(p.digits);
    assert s + "0." + z + d == s + ("0." + z) + d + "";
  }

  lemma {:induction false} PhasesMixed(p: Parts)
    requires 0 < p.point < |p.digits|
    ensures TextOf(p) == LeadText(p) + DigitsText(p.digits, p.point, |p.digits|) + TailText(p)
  {
    hide Chars, DigitsText, Zeros, Sign;
    DigitsTextIs(p.digits, p.point, |p.digits|);
    assert p.digits[0..p.point] == p.digits[..p.point] && p.digits[p.point..|p.digits|] == p.digits[p.point..];
    var s, a, b := Sign(p.negative), Chars(p.digits[..p.point]), Chars(p.digits[p.point..]);
    assert s + a + "." + b == s + "" + (a + "." + b) + "";
  }

  lemma {:induction false} PhasesWhole(p: Parts)
    requires p.point >= |p.digits| && p.point > 0
    ensures TextOf(p) == LeadText(p) + DigitsText(p.digits, p.point, |p.digits|) + TailText(p)
  {
    assert p.point == |p.digits| ==> Chars(Zeros(p.point - |p.digits|)) == "";
    hide Chars, DigitsText, Zeros, Sign;
    DigitsTextIs(p.digits, p.point, |p.digits|);
    assert p.digits[0..|p.digits|] == p.digits;
    var s, d, z := Sign(p.negative), Chars(p.digits), Chars(Zeros(p.point - |p.digits|));
    assert s + d + z == s + "" + d + z;
  }

  /** A buffer whose front holds the bytes of the text and whose rest is as it was. */
  ghost function Filled(charset: Charset, text: string, was: seq<byte>): (now: seq<byte>)
    requires Room(charset, |text|) <= |was|
    ensures |now| == |was|
  {
    Raw(charset, text) + was[Room(charset, |text|)..]
  }

  lemma {:induction false} FilledNext(charset: Charset, text: string, c: char, was: seq<byte>, t: nat)
    requires Room(charset, |text| + 1) <= |was| && t == Room(charset, |text|) && c as int <= 127
    ensures var now, next := Filled(charset, text, was), Filled(charset, text + [c], was);
            match charset
            case SingleByte => next == now[t := c as int]
            case Utf16(true) => next == now[t := 0][t + 1 := c as int]
            case Utf16(false) => next == now[t := c as int][t + 1 := 0]
  {
    assert (text + [c])[..|text|] == text;
    assert Raw(charset, text + [c]) == Raw(charset, text) + Unit(charset, c);
    hide Raw;
    if charset.SingleByte? {
      OneMore(Raw(charset, text), was, c as int);
    } else {
      TwoMore(Raw(charset, text), was, Unit(charset, c)[0], Unit(charset, c)[1]);
    }
  }

  lemma {:induction false} OneMore(front: seq<byte>, was: seq<byte>, a: byte)
    requires |front| < |was|
    ensures var n := |front|; front + [a] + was[n + 1..] == (front + was[n..])[n := a]
  {
  }

  lemma {:induction false} TwoMore(front: seq<byte>, was: seq<byte>, a: byte, b: byte)
    requires |front| + 1 < |was|
    ensures var n := |front|; front + [a, b] + was[n + 2..] == (front + was[n..])[n := a][n + 1 := b]
  {
  }

  method PutByte(buffer: array<byte>, target: nat, b: byte)
    requires target < buffer.Length
    modifies buffer
    ensures buffer[..] == old(buffer[..])[target := b]
  {
    buffer[target] := b;
  }

  /** One character written behind the text so far, the target moved on. */
  method Put(charset: Charset, buffer: array<byte>, target: nat, c: char, ghost text: string, ghost was: seq<byte>)
    returns (next: nat)
    requires Room(charset, |text| + 1) <= |was| && target == Room(charset, |text|) && c as int <= 127
    requires buffer[..] == Filled(charset, text, was)
    modifies buffer
    ensures next == Room(charset, |text| + 1) && buffer[..] == Filled(charset, text + [c], was)
  {
    FilledNext(charset, text, c, was, target);
    hide Filled;
    assert |was| == buffer.Length;
    match charset {
      case SingleByte =>
        PutByte(buffer, target, c as int);
        next := target + 1;
      case Utf16(true) =>
        PutByte(buffer, target, 0);
        PutByte(buffer, target + 1, c as int);
        next := target + 2;
      case Utf16(false) =>
        PutByte(buffer, target, c as int);
        PutByte(buffer, target + 1, 0);
        next := target + 2;
    }
  }

  /** `count` zeros written. */
  method PutZeros(charset: Charset, buffer: array<byte>, start: nat, count: nat, ghost text: string,
          ghost was: seq<byte>)
    returns (target: nat)
    requires Room(charset, |text| + count) <= |was| && start == Room(charset, |text|)
    requires buffer[..] == Filled(charset, text, was)
    modifies buffer
    ensures target == Room(charset, |text| + count) && buffer[..] == Filled(charset, text + Chars(Zeros(count)), was)
  {
    hide Filled;
    target := start;
    assert text + Chars(Zeros(0)) == text;
    for i := 0 to count
      invariant target == Room(charset, |text| + i) && buffer[..] == Filled(charset, text + Chars(Zeros(i)), was)
    {
      target := Put(charset, buffer, target, '0', text + Chars(Zeros(i)), was);
      assert text + Chars(Zeros(i)) + ['0'] == text + Chars(Zeros(i + 1));
    }
  }

  /** The text so far and i digits. */
  ghost function Continued(text: string, p: Parts, i: nat): (r: string)
    requires i <= |p.digits|
  {
    text + DigitsText(p.digits, p.point, i)
  }

  lemma {:induction false} ContinuedLength(text: string, p: Parts, i: nat)
    requires i <= |p.digits|
    ensures |Continued(text, p, i)| == |text| + |DigitsText(p.digits, p.point, i)|
    ensures |Continued(text, p, i)| == |text| + i + (if 0 < p.point < i then 1 else 0)
    ensures i == 0 ==> Continued(text, p, i) == text
  {
    DigitsTextLength(p.digits, p.point, i);
  }

  lemma {:induction false} ContinuedNext(text: string, p: Parts, i: nat)
    requires i < |p.digits|
    ensures var done := Continued(text, p, i);
            var pointed := if i > 0 && i == p.point then done + ['.'] else done;
            Continued(text, p, i + 1) == pointed + [CharOf(p.digits[i])]
  {
    var c := CharOf(p.digits[i]);
    DigitsTextNext(p.digits, p.point, i, c);
    hide DigitsText, CharOf;
    var d := DigitsText(p.digits, p.point, i);
    assert text + (d + "." + [c]) == text + d + ['.'] + [c];
    assert text + (d + [c]) == text + d + [c];
  }

  /** One digit, with the point before it where it belongs. */
  method PutDigit(p: Parts, charset: Charset, buffer: array<byte>, start: nat, i: nat, ghost text: string,
          ghost was: seq<byte>)
    returns (target: nat)
    requires i < |p.digits| && Room(charset, |Continued(text, p, i + 1)|) <= |was|
    requires start == Room(charset, |Continued(text, p, i)|) <= |was|
    requires buffer[..] == Filled(charset, Continued(text, p, i), was)
    modifies buffer
    ensures target == Room(charset, |Continued(text, p, i + 1)|)
    ensures buffer[..] == Filled(charset, Continued(text, p, i + 1), was)
  {
    ContinuedNext(text, p, i);
    ghost var done := Continued(text, p, i);
    var c := CharOf(p.digits[i]);
    hide Filled, Continued;
    target := start;
    if i > 0 && i == p.point {
      target := Put(charset, buffer, target, '.', done, was);
      done := done + ['.'];
    }
    target := Put(charset, buffer, target, c, done, was);
  }

  method PutDigits(p: Parts, charset: Charset, buffer: array<byte>, start: nat, ghost text: string,
          ghost was: seq<byte>)
    returns (target: nat)
    requires Room(charset, |Continued(text, p, |p.digits|)|) <= |was| && start == Room(charset, |text|)
    requires buffer[..] == Filled(charset, text, was)
    modifies buffer
    ensures target == Room(charset, |Continued(text, p, |p.digits|)|)
    ensures buffer[..] == Filled(charset, Continued(text, p, |p.digits|), was)
  {
    hide Filled, Continued, DigitsText;
    target := start;
    ContinuedLength(text, p, 0);
    ContinuedLength(text, p, |p.digits|);
    for i := 0 to |p.digits|
      invariant target == Room(charset, |Continued(text, p, i)|) <= |was|
      invariant buffer[..] == Filled(charset, Continued(text, p, i), was)
    {
      ContinuedLength(text, p, i + 1);
      target := PutDigit(p, charset, buffer, target, i, text, was);
    }
  }

  method PutSign(negative: bool, charset: Charset, buffer: array<byte>, ghost was: seq<byte>) returns (target: nat)
    requires Room(charset, |Sign(negative)|) <= |was| && buffer[..] == was
    modifies buffer
    ensures target == Room(charset, |Sign(negative)|) && buffer[..] == Filled(charset, Sign(negative), was)
  {
    target := 0;
    assert Filled(charset, "", was) == was;
    hide Filled;
    if negative {
      target := Put(charset, buffer, target, '-', "", was);
      assert "" + ['-'] == "-";
    }
  }

  /** What stands before the digits of a number below one. */
  method PutSmall(zeros: nat, charset: Charset, buffer: array<byte>, start: nat, ghost text: string,
          ghost was: seq<byte>)
    returns (target: nat)
    requires Room(charset, |text| + 2 + zeros) <= |was| && start == Room(charset, |text|)
    requires buffer[..] == Filled(charset, text, was)
    modifies buffer
    ensures target == Room(charset, |text| + 2 + zeros)
    ensures buffer[..] == Filled(charset, text + ("0." + Chars(Zeros(zeros))), was)
  {
    SmallSteps(text, Chars(Zeros(zeros)));
    hide Filled, Chars, Zeros;
    ghost var dotted := text + ['0'] + ['.'];
    target := Put(charset, buffer, start, '0', text, was);
    target := Put(charset, buffer, target, '.', text + ['0'], was);
    target := PutZeros(charset, buffer, target, zeros, dotted, was);
  }

  lemma {:induction false} SmallSteps(text: string, zeros: string)
    ensures var dotted := text + ['0'] + ['.'];
            |text + ['0']| == |text| + 1 && |dotted| == |text| + 2 && dotted + zeros == text + ("0." + zeros)
  {
  }

  /** The sign, and what stands before the digits. */
  method PutLead(p: Parts, charset: Charset, buffer: array<byte>, ghost was: seq<byte>) returns (target: nat)
    requires Room(charset, |LeadText(p)|) <= |was| && buffer[..] == was
    modifies buffer
    ensures target == Room(charset, |LeadText(p)|) && buffer[..] == Filled(charset, LeadText(p), was)
  {
    LeadSteps(p);
    hide Filled, Chars, Zeros, LeadText, Sign;
    target := PutSign(p.negative, charset, buffer, was);
    if p.point <= 0 {
      target := PutSmall(-p.point, charset, buffer, target, Sign(p.negative), was);
    }
  }

  lemma {:induction false} LeadSteps(p: Parts)
    ensures p.point > 0 ==> LeadText(p) == Sign(p.negative)
    ensures p.point <= 0 ==> LeadText(p) == Sign(p.negative) + ("0." + Chars(Zeros(-p.point)))
    ensures |Sign(p.negative)| <= |LeadText(p)|
    ensures p.point <= 0 ==> |LeadText(p)| == |Sign(p.negative)| + 2 + -p.point
  {
  }

  lemma {:induction false} TextSteps(p: Parts)
    ensures var n, lead, done := |p.digits|, LeadText(p), Continued(LeadText(p), p, |p.digits|);
            && |lead| <= |done| <= |TextOf(p)|
            && (p.point <= n ==> TextOf(p) == done)
            && (p.point > n ==> TextOf(p) == done + Chars(Zeros(p.point - n)) && |TextOf(p)| == |done| + p.point - n)
  {
    TextPhases(p);
    var lead, digits := LeadText(p), DigitsText(p.digits, p.point, |p.digits|);
    assert p.point > |p.digits| ==> |Chars(Zeros(p.point - |p.digits|))| == p.point - |p.digits|;
    hide TextOf, DigitsText, LeadText, Chars, Zeros;
    assert lead + digits + "" == lead + digits;
  }

  method WriteText(p: Parts, charset: Charset, buffer: array<byte>)
    requires Room(charset, |TextOf(p)|) <= buffer.Length
    modifies buffer
    ensures buffer[..] == Filled(charset, TextOf(p), old(buffer[..]))
  {
    ghost var was := buffer[..];
    TextSteps(p);
    hide TextOf, DigitsText, LeadText, Chars, Zeros, Filled, Continued;
    var target := PutLead(p, charset, buffer, was);
    var point := if p.point <= 0 then 0 else p.point;
    target := PutDigits(p, charset, buffer, target, LeadText(p), was);
    if point > |p.digits| {
      target := PutZeros(charset, buffer, target, point - |p.digits|, Continued(LeadText(p), p, |p.digits|), was);
    }
  }

  /** `dpiDataBuffer__fromOracleNumberAsText` on the parsed digits: the
      characters go to the buffer one by one, in one byte each or in two. */
  method AsText(p: Parts, charset: Charset, buffer: array<byte>, size: nat) returns (ok: bool, length: nat)
    requires size <= buffer.Length
    modifies buffer
    ensures ok <==> Room(charset, |TextOf(p)|) <= size
    ensures ok ==> length == Room(charset, |TextOf(p)|) && buffer[..length] == Raw(charset, TextOf(p))
    ensures ok ==> buffer[length..] == old(buffer[length..])
    ensures !ok ==> buffer[..] == old(buffer[..])
  {
    TextOfLength(p);
    hide TextOf, Raw;
    var numBytes := |p.digits|;
    if p.negative {
      numBytes := numBytes + 1;
    }
    if p.point <= 0 {
      numBytes := numBytes + -p.point + 2;
    } else if p.point < |p.digits| {
      numBytes := numBytes + 1;
    } else if p.point > |p.digits| {
      numBytes := numBytes + p.point - |p.digits|;
    }
    if charset.Utf16? {
      numBytes := numBytes * 2;
    }
    ok, length := numBytes <= size, 0;
    if !ok {
      return;
    }
    length := numBytes;
    ghost var was := buffer[..];
    WriteText(p, charset, buffer);
    assert buffer[..length] == Filled(charset, TextOf(p), was)[..length];
    assert buffer[length..] == Filled(charset, TextOf(p), was)[length..];
  }

  /** 172 characters are enough for every number in range. */
  lemma {:induction false} TextFits(p: Parts)
    requires InRange(p)
    ensures |TextOf(p)| <= MAX_TEXT
  {
    TextOfLength(p);
  }

  /** Forty ones around an odd point are encoded, and refused when read. */
  method RefusedExample() returns (ok: bool, q: Parts)
    ensures !ok
  {
    ok, q := ReadStored(Parts(false, 1, seq(MAX_DIGITS, _ => 1)));
  }
}
