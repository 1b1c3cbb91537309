/** `OCINum.Decompose` and `OCINum.Compose`: the NUMBER format as sign,
    coefficient and exponent.  The exponent is the base-100 exponent of the
    leading base-100 digit of the coefficient. */
module OciParts {
  import opened Decimals
  import opened OciFormat
  import opened BigNumbers
  import opened OciPrint
  import opened Words

  datatype ComposeResult = Composed(num: seq<byte>) | OutOfRange

  /** The number that parts stand for: coefficient * 100^(exponent - digits + 1). */
  ghost function PartsValue(p: Parts): real {
    var c := BytesToNat(p.coefficient);
    Signed(p.negative, Times(c, Pow10(2 * (p.exponent - |ToPairs(c)| + 1))))
  }

  // ----- Decompose -----

  function NextSum(sum: nat, d: nat, e: nat): nat { sum + d * e }

  function NextUnit(e: nat): nat { e * 100 }

  lemma {:induction false} SumStep(ps: seq<Pair>, j: nat, d: nat, e: nat)
    requires j < |ps| && d == ps[j] && e == Hundreds(|ps| - 1 - j)
    ensures FromPairs(ps[j..]) == NextSum(FromPairs(ps[j + 1..]), d, e)
    ensures NextUnit(e) == Hundreds(|ps| - j)
  {
    assert ps[j..] == [ps[j]] + ps[j + 1..];
    FromPairsFront(ps[j], ps[j + 1..]);
  }

  /** The count of zeros is a byte. */
  function NextCount(zCount: nat, d: nat): nat { if d == 0 then (zCount + 1) % 256 else 0 }

  lemma {:induction false} ZeroStep(ps: seq<Pair>, j: nat)
    requires j < |ps|
    ensures |ps| < 256 ==> LeadingZeroPairs(ps[j..]) == NextCount(LeadingZeroPairs(ps[j + 1..]), ps[j])
  {
    assert ps[j..][1..] == ps[j + 1..];
  }

  /** Sum of the digits times their weights, and the number of leading zero digits. */
  method SumDigits(negative: bool, m: seq<byte>, ghost ps: seq<Pair>) returns (sum: nat, zCount: nat)
    ensures Matches(negative, m, ps) ==> sum == FromPairs(ps)
    ensures Matches(negative, m, ps) && |ps| < 256 ==> zCount == LeadingZeroPairs(ps)
  {
    sum, zCount := 0, 0;
    var e: nat := 1;
    ghost var valid := Matches(negative, m, ps);
    assert valid ==> |ps| == |m| && forall i :: 0 <= i < |m| ==> WireDigit(negative, m[i]) == ps[i];
    ghost var short := valid && |ps| < 256;
    var j := |m| - 1;
    assert valid ==> ps[|m|..] == [] && Hundreds(0) == 1 && FromPairs([]) == 0 && LeadingZeroPairs([]) == 0;
    hide FromPairs, LeadingZeroPairs, NextCount, NextSum, NextUnit, Matches, Hundreds;
    while j >= 0
      invariant -1 <= j < |m|
      invariant valid ==> sum == FromPairs(ps[j + 1..])
      invariant short ==> zCount == LeadingZeroPairs(ps[j + 1..])
      invariant valid && j >= 0 ==> e == Hundreds(|m| - 1 - j)
    {
      var d: nat := WireDigit(negative, m[j]);
      if valid {
        assert d == ps[j];
        SumStep(ps, j, d, e);
        ZeroStep(ps, j);
      }
      zCount := NextCount(zCount, d);
      sum := NextSum(sum, d, e);
      if j != 0 {
        e := NextUnit(e);
      }
      j := j - 1;
    }
    assert valid ==> ps[0..] == ps;
  }

  /** `OCINum.Decompose`. */
  method Decompose(num: seq<byte>) returns (p: Parts)
    ensures |num| < 2 && num != ZERO ==> p == Parts(NAN, false, [], 0)
    ensures num == ZERO ==> p == Parts(FINITE, false, [0], 0)
    ensures WellFormed(num) ==> p.form == FINITE && p.negative == NegativeNum(num)
    ensures WellFormed(num) ==> p.coefficient == NatToBytes(FromPairs(Pairs(num)))
    ensures WellFormed(num) && |Pairs(num)| < 256 ==> p.exponent == Exponent(num) - LeadingZeroPairs(Pairs(num))
  {
    if |num| == 0 {
      return Parts(NAN, false, [], 0);
    }
    if num == ZERO {
      return Parts(FINITE, false, [0], 0);
    }
    if |num| < 2 {
      return Parts(NAN, false, [], 0);
    }
    var b, m := num[0], num[1..];
    var negative := b / 128 == 0;
    var exponent: int := b % 128;
    if negative {
      exponent := 127 - b % 128;
      if m[|m| - 1] == SENTINEL {
        m := m[..|m| - 1];
      }
    }
    exponent := exponent - 65;
    assert m == Mantissa(num) && negative == NegativeNum(num) && exponent == Exponent(num);
    var sum, zCount := SumDigits(negative, m, if WellFormed(num) then Pairs(num) else []);
    p := Parts(FINITE, negative, NatToBytes(sum), exponent - zCount);
  }

  /** The parts denote the number. */
  lemma {:induction false} DecomposedValue(num: seq<byte>, p: Parts)
    requires WellFormed(num) && num != ZERO && p.negative == NegativeNum(num)
    requires p.coefficient == NatToBytes(FromPairs(Pairs(num)))
    requires p.exponent == Exponent(num) - LeadingZeroPairs(Pairs(num))
    ensures PartsValue(p) == NumValue(num)
  {
    hide Pairs, Exponent, NegativeNum, LeadingZeroPairs, FromPairs, NatToBytes, PairMag;
    var ps := Pairs(num);
    StrippedValue(ps, LeadingZeroPairs(ps), Exponent(num));
  }

  lemma {:induction false} StrippedValue(ps: seq<Pair>, k: nat, e: int)
    requires k <= |ps| && (forall i :: 0 <= i < k ==> ps[i] == 0) && (k < |ps| ==> ps[k] != 0)
    ensures var c := FromPairs(ps); PairMag(ps, e) == Times(c, Pow10(2 * (e - k - |ToPairs(c)| + 1)))
  {
    DropLeadingZeros(ps, k, e);
    RowValue(ps[k..], e - k);
  }

  lemma {:induction false} RowValue(ps: seq<Pair>, e: int)
    requires ps != [] ==> ps[0] != 0
    ensures var c := FromPairs(ps); PairMag(ps, e) == Times(c, Pow10(2 * (e - |ToPairs(c)| + 1)))
  {
    if ps != [] {
      FromPairsIsMag(ps, e);
      PairsUnique(ps);
    }
  }

  // ----- Compose -----

  function Reversed<T>(s: seq<T>): (r: seq<T>)
    ensures |r| == |s|
    ensures forall i :: 0 <= i < |s| ==> r[i] == s[|s| - 1 - i]
  {
    seq(|s|, i requires 0 <= i < |s| => s[|s| - 1 - i])
  }

  /** The exponent that seven bits keep. */
  function StoredExponent(e: int): int { (e + 65) % 128 - 65 }

  const MAX_DIGITS := 21

  /** The base-100 digits of the coefficient; only the low 21 of a longer one. */
  function KeptPairs(c: nat): (ps: seq<Pair>)
    ensures 1 <= |ps| <= MAX_DIGITS
  {
    var all := ToPairs(c);
    if |all| <= MAX_DIGITS then all else all[|all| - MAX_DIGITS..]
  }

  /** i is what is left of c after its low digits ps. */
  ghost predicate Left(c: nat, i: nat, ps: seq<Pair>) {
    if i == 0 then ToPairs(c) == ps else ToPairs(c) == ToPairs(i) + ps
  }

  ghost predicate Divided(c: nat, i: nat, ps: seq<Pair>) {
    if ps == [] then i == c else i > 0 && Left(c, i, ps)
  }

  lemma {:induction false} DivideStep(c: nat, i: nat, ps: seq<Pair>, r: Pair)
    requires Divided(c, i, ps) && r == i % 100
    ensures Left(c, i / 100, [r] + ps) && (i / 100 > 0 ==> Divided(c, i / 100, [r] + ps))
  {
    assert ToPairs(i) + [] == ToPairs(i);
    if i >= 100 {
      assert ToPairs(i / 100) + [i % 100] + ps == ToPairs(i / 100) + ([i % 100] + ps);
    }
  }

  method LowDigits(coefficient: nat, negative: bool) returns (m: seq<byte>)
    ensures m == Reversed(EncodedAll(negative, KeptPairs(coefficient)))
  {
    m := [];
    ghost var ps: seq<Pair> := [];
    assert Reversed(EncodedAll(negative, [])) == [] && Divided(coefficient, coefficient, []);
    hide Reversed, EncodedAll, ToPairs, KeptPairs, Divided, Left;
    var i := coefficient;
    while true
      invariant m == Reversed(EncodedAll(negative, ps)) && |m| == |ps| < MAX_DIGITS
      invariant Divided(coefficient, i, ps)
      decreases MAX_DIGITS - |ps|
    {
      var r: Pair := i % 100;
      DivideStep(coefficient, i, ps, r);
      var b: byte := if negative then 101 - r else r + 1;
      ReversedFront(negative, r, ps, b);
      m := m + [b];
      ps := [r] + ps;
      i := i / 100;
      if 1 + |m| > 21 || i == 0 {
        break;
      }
    }
    KeptIs(coefficient, i, ps);
  }

  lemma {:induction false} KeptIs(c: nat, i: nat, ps: seq<Pair>)
    requires ps != [] && Left(c, i, ps) && if i == 0 then |ps| <= MAX_DIGITS else |ps| == MAX_DIGITS
    ensures KeptPairs(c) == ps
  {
    if i > 0 {
      assert (ToPairs(i) + ps)[|ToPairs(i)|..] == ps;
    }
  }

  lemma {:induction false} ReversedFront(negative: bool, r: Pair, ps: seq<Pair>, b: byte)
    requires b == if negative then 101 - r else r + 1
    ensures Reversed(EncodedAll(negative, [r] + ps)) == Reversed(EncodedAll(negative, ps)) + [b]
  {
    assert EncodedAll(negative, [r] + ps) == [Encoded(negative, r)] + EncodedAll(negative, ps);
  }

  /** The in-place reversal of everything after the first byte. */
  method ReverseTail(bytes: seq<byte>) returns (res: seq<byte>)
    requires bytes != []
    ensures res == [bytes[0]] + Reversed(bytes[1..])
  {
    res := bytes;
    var i, j := 1, |res| - 1;
    while i < j
      invariant |res| == |bytes| && 1 <= i && j == |res| - i && i <= j + 2
      invariant forall k :: 1 <= k < i ==> res[k] == bytes[|res| - k] && res[|res| - k] == bytes[k]
      invariant forall k :: i <= k <= j ==> res[k] == bytes[k]
      invariant res[0] == bytes[0]
    {
      res := res[i := res[j]][j := res[i]];
      i, j := i + 1, j - 1;
    }
    forall k | 1 <= k < |res| ensures res[k] == Reversed(bytes[1..])[k - 1] {
      assert Reversed(bytes[1..])[k - 1] == bytes[1..][|bytes| - 1 - k];
      assert k < i || i <= k <= j || 1 <= |res| - k < i;
    }
  }

  /** What composing stores. */
  function Packed(negative: bool, exponent: int, ps: seq<Pair>): seq<byte> {
    Assemble(negative, StoredExponent(exponent), ps, negative && |ps| < MAX_MANTISSA)
  }

  lemma {:induction false} PackedParts(negative: bool, exponent: int, ps: seq<Pair>)
    requires ps != []
    ensures var num := Packed(negative, exponent, ps);
            && WellFormed(num) && num != ZERO && SentinelRule(num)
            && Pairs(num) == ps && NegativeNum(num) == negative && Exponent(num) == StoredExponent(exponent)
            && NumValue(num) == Signed(negative, PairMag(ps, StoredExponent(exponent)))
  {
    AssembledParts(negative, StoredExponent(exponent), ps, negative && |ps| < MAX_MANTISSA);
  }

  lemma {:induction false} StoredExactly(e: int)
    ensures StoredExponent(e) == e <==> -65 <= e <= 62
  {
  }

  /** Offset, truncation to a byte, complement or sign bit. */
  method PackExponent(negative: bool, exponent: int) returns (exp: byte)
    ensures exp == ExponentByte(negative, StoredExponent(exponent))
  {
    exp := (exponent + 65) % 256;
    if negative {
      exp := 127 - exp % 128;
    } else {
      exp := 128 + exp % 128;
    }
  }

  method PackDigits(exp: byte, coefficient: nat, negative: bool, ghost e: int) returns (res: seq<byte>)
    requires exp == ExponentByte(negative, StoredExponent(e))
    ensures res == Packed(negative, e, KeptPairs(coefficient))
  {
    var m := LowDigits(coefficient, negative);
    res := ReverseTail([exp] + m);
    ReversedTwice(EncodedAll(negative, KeptPairs(coefficient)));
    assert ([exp] + m)[1..] == m;
    if negative && |res| < 21 {
      res := res + [SENTINEL];
    }
  }

  lemma {:induction false} ReversedTwice<T>(s: seq<T>)
    ensures Reversed(Reversed(s)) == s
  {
  }

  /** `OCINum.Compose`. */
  method Compose(p: Parts) returns (r: ComposeResult)
    ensures p.form != FINITE ==> r == Composed([])
    ensures p.form == FINITE && p.coefficient == [0] ==> r == Composed(ZERO)
    ensures p.form == FINITE && p.coefficient != [0] && p.exponent > 127 ==> r == OutOfRange
    ensures p.form == FINITE && p.coefficient != [0] && p.exponent <= 127 ==>
              r == Composed(Packed(p.negative, p.exponent, KeptPairs(BytesToNat(p.coefficient))))
  {
    if p.form != FINITE {
      return Composed([]);
    }
    if |p.coefficient| == 1 && p.coefficient[0] == 0 {
      return Composed(ZERO);
    }
    if p.exponent > 0x7f {
      return OutOfRange;
    }
    var exp := PackExponent(p.negative, p.exponent);
    var res := PackDigits(exp, BytesToNat(p.coefficient), p.negative, p.exponent);
    r := Composed(res);
  }

  /** Exactly when composing keeps the number: the exponent fits seven bits and
      the coefficient 21 base-100 digits.  Otherwise the exponent wraps around,
      or the high digits are lost, without an error. */
  predicate Representable(p: Parts) {
    -65 <= p.exponent <= 62 && |ToPairs(BytesToNat(p.coefficient))| <= MAX_DIGITS
  }

  /** Taking apart what was put together. */
  method DecomposeComposed(p: Parts) returns (q: Parts)
    requires p.form == FINITE && p.exponent <= 127
    requires p.coefficient != [] && p.coefficient[0] != 0
    ensures q == p <==> Representable(p)
  {
    var r := Compose(p);
    ghost var c, ps := BytesToNat(p.coefficient), KeptPairs(BytesToNat(p.coefficient));
    PackedParts(p.negative, p.exponent, ps);
    q := Decompose(r.num);
    BytesUnique(p.coefficient);
    KeptExactly(c, ps);
    StoredExactly(p.exponent);
  }

  lemma {:induction false} KeptExactly(c: nat, ps: seq<Pair>)
    requires c > 0 && ps == KeptPairs(c)
    ensures FromPairs(ps) == c <==> |ToPairs(c)| <= MAX_DIGITS
    ensures FromPairs(ps) == c ==> LeadingZeroPairs(ps) == 0
  {
    var k := LeadingZeroPairs(ps);
    DropLeadingZeros(ps, k, 0);
    if k < |ps| {
      PairsUnique(ps[k..]);
    }
  }

  /** Take apart, put together. */
  function Recompose(num: seq<byte>): seq<byte>
    requires WellFormed(num)
  {
    Packed(NegativeNum(num), Exponent(num) - LeadingZeroPairs(Pairs(num)), KeptPairs(FromPairs(Pairs(num))))
  }

  method ComposeDecomposed(num: seq<byte>) returns (r: ComposeResult)
    requires WellFormed(num) && num != ZERO && |Pairs(num)| <= MAX_MANTISSA
    ensures r == Composed(Recompose(num))
  {
    hide WellFormed, Pairs, NegativeNum, Packed, KeptPairs, FromPairs, LeadingZeroPairs, BytesToNat, NatToBytes;
    var p := Decompose(num);
    assert p.coefficient != [0];
    r := Compose(p);
  }

  /** A stored non-zero number of legal length. */
  ghost predicate NonZeroNum(num: seq<byte>) {
    WellFormed(num) && num != ZERO && |Pairs(num)| <= MAX_MANTISSA && NumValue(num) != 0.0
  }

  /** The result is normalized, keeps the sign, and loses only leading zeros. */
  lemma {:induction false} RecomposeParts(num: seq<byte>, r: seq<byte>)
    requires NonZeroNum(num) && r == Recompose(num)
    ensures var k := LeadingZeroPairs(Pairs(num));
            && k < |Pairs(num)| && Normalized(r) && r != ZERO && SentinelRule(r)
            && NegativeNum(r) == NegativeNum(num) && Pairs(r) == Pairs(num)[k..]
            && Exponent(r) == StoredExponent(Exponent(num) - k)
  {
    hide Pairs, Exponent, NegativeNum, Packed, PairMag, LeadingZeroPairs, KeptPairs, FromPairs;
    RecomposedRow(NegativeNum(num), Exponent(num), Pairs(num), LeadingZeroPairs(Pairs(num)), r);
  }

  lemma {:induction false} RecomposedRow(negative: bool, e: int, ps: seq<Pair>, k: nat, r: seq<byte>)
    requires |ps| <= MAX_MANTISSA && PairMag(ps, e) != 0.0 && k == LeadingZeroPairs(ps)
    requires r == Packed(negative, e - k, KeptPairs(FromPairs(ps)))
    ensures k < |ps| && Normalized(r) && r != ZERO && SentinelRule(r)
    ensures NegativeNum(r) == negative && Pairs(r) == ps[k..] && Exponent(r) == StoredExponent(e - k)
  {
    hide Assemble, Packed, Pairs, Exponent, KeptPairs, FromPairs, LeadingZeroPairs, PairMag;
    StrippedRow(ps, e);
    PackedParts(negative, e - k, KeptPairs(FromPairs(ps)));
  }

  /** The value is the same exactly when the smaller exponent can be stored. */
  lemma {:induction false} RecomposeValue(num: seq<byte>, r: seq<byte>)
    requires NonZeroNum(num) && r == Recompose(num)
    ensures WellFormed(r) && (NumValue(r) == NumValue(num) <==> Exponent(num) - LeadingZeroPairs(Pairs(num)) >= -65)
  {
    hide Pairs, Exponent, NegativeNum, Packed, PairMag, LeadingZeroPairs, KeptPairs, FromPairs, StoredExponent;
    RecomposeParts(num, r);
    ExponentRange(num);
    StoredValue(NegativeNum(num), Exponent(num), Pairs(num), LeadingZeroPairs(Pairs(num)));
  }

  /** A normalized encoding keeps all its parts, and comes back byte for byte
      exactly when it follows the rule for the trailing 102. */
  lemma {:induction false} RecomposeIdentity(num: seq<byte>, r: seq<byte>)
    requires NonZeroNum(num) && Normalized(num) && r == Recompose(num)
    ensures WellFormed(r) && NegativeNum(r) == NegativeNum(num) && Exponent(r) == Exponent(num)
            && Pairs(r) == Pairs(num)
    ensures r == num <==> SentinelRule(num)
  {
    hide Exponent, NegativeNum, Packed, PairMag, KeptPairs, FromPairs, StoredExponent;
    RecomposeParts(num, r);
    ExponentRange(num);
    StoredExactly(Exponent(num));
    assert LeadingZeroPairs(Pairs(num)) == 0 && Pairs(num)[0..] == Pairs(num);
    SameBytes(num, r);
  }

  /** The mantissa without its leading zeros is what the coefficient spells. */
  lemma {:induction false} StrippedRow(ps: seq<Pair>, e: int)
    requires |ps| <= MAX_MANTISSA && PairMag(ps, e) != 0.0
    ensures var k := LeadingZeroPairs(ps); k < |ps| && KeptPairs(FromPairs(ps)) == ps[k..]
  {
    var k := LeadingZeroPairs(ps);
    DropLeadingZeros(ps, k, e);
    var kept := ps[k..];
    if kept != [] {
      PairsUnique(kept);
    }
  }

  lemma {:induction false} ExponentRange(num: seq<byte>)
    requires num != []
    ensures -65 <= Exponent(num) <= 62
  {
  }

  /** Encodings with the same parts differ at most in the trailing 102. */
  lemma {:induction false} SameBytes(num: seq<byte>, r: seq<byte>)
    requires WellFormed(num) && WellFormed(r) && SentinelRule(r)
    requires Pairs(num) == Pairs(r) && NegativeNum(num) == NegativeNum(r) && Exponent(num) == Exponent(r)
    ensures r == num <==> SentinelRule(num)
  {
    DeterminedByParts(num);
    DeterminedByParts(r);
    assert |Mantissa(num)| == |Mantissa(r)|;
  }

  lemma {:induction false} StoredValue(negative: bool, e: int, ps: seq<Pair>, k: nat)
    requires k == LeadingZeroPairs(ps) < |ps| && e <= 62
    ensures Signed(negative, PairMag(ps[k..], StoredExponent(e - k))) == Signed(negative, PairMag(ps, e)) <==>
            e - k >= -65
  {
    DropLeadingZeros(ps, k, e);
    StoredExactly(e - k);
    StoredBigger(ps[k..], e - k);
  }

  /** A wrapped exponent stands for another number. */
  lemma {:induction false} StoredBigger(ps: seq<Pair>, e: int)
    requires ps != [] && ps[0] != 0 && e <= 62
    ensures PairMag(ps, StoredExponent(e)) == PairMag(ps, e) ==> StoredExponent(e) == e
  {
    PairMagBounds(ps, e);
    PairMagBounds(ps, StoredExponent(e));
    if e < StoredExponent(e) {
      Pow10Grows(2 * e + 2, 2 * StoredExponent(e));
    }
  }

  lemma {:induction false} PairMagBounds(ps: seq<Pair>, e: int)
    requires ps != [] && ps[0] != 0
    ensures Pow10(2 * e) <= PairMag(ps, e) < Pow10(2 * e + 2)
  {
    PairMagIsMag(ps, e);
    MagBounds(Unpair(ps), 2 * e + 2);
    TimesPositive(ps[0], Pow10(2 * e));
    Pow10Positive(2 * e);
    PairMagIsMag(ps[1..], e - 1);
    MagBounds(Unpair(ps[1..]), 2 * (e - 1) + 2);
  }

  // ----- the decimal interface -----

  /** What the decimal interface takes parts for: coefficient * 10^exponent. */
  ghost function InterfaceValue(p: Parts): real {
    Signed(p.negative, Times(BytesToNat(p.coefficient), Pow10(p.exponent)))
  }

  /** The two readings agree exactly if the coefficient is zero, or the exponent
      is twice the number of base-100 digits behind the first. */
  lemma {:induction false} ReadingsAgree(p: Parts)
    ensures var c := BytesToNat(p.coefficient);
            InterfaceValue(p) == PartsValue(p) <==> c == 0 || p.exponent == 2 * (|ToPairs(c)| - 1)
  {
    var c := BytesToNat(p.coefficient);
    ScaleUnique(c, p.exponent, 2 * (p.exponent - |ToPairs(c)| + 1));
    hide BytesToNat, ToPairs, Times, Pow10;
  }

  lemma {:induction false} CoefficientPairs(ps: seq<Pair>, k: nat, c: nat)
    requires k == LeadingZeroPairs(ps) && c == FromPairs(ps)
    ensures c == 0 <==> k == |ps|
    ensures c > 0 ==> |ToPairs(c)| == |ps| - k
  {
    DropLeadingZeros(ps, k, 0);
    if k < |ps| {
      PairsUnique(ps[k..]);
    } else {
      assert ps[k..] == [];
    }
  }

  lemma {:induction false} ZeroExactly(p: Parts)
    ensures PartsValue(p) == 0.0 <==> BytesToNat(p.coefficient) == 0
  {
    var c := BytesToNat(p.coefficient);
    var scale := Pow10(2 * (p.exponent - |ToPairs(c)| + 1));
    Pow10Positive(2 * (p.exponent - |ToPairs(c)| + 1));
    TimesPositive(c, scale);
    hide BytesToNat, ToPairs, Pow10;
  }

  /** A stored number that is taken apart keeps its value on the other side of
      the interface exactly if it is zero, or the exponent that is handed over is
      twice the number of digits behind the first non-zero one. */
  method DecomposeForInterface(num: seq<byte>) returns (p: Parts)
    requires WellFormed(num) && |Pairs(num)| < 256
    ensures var k := LeadingZeroPairs(Pairs(num));
            InterfaceValue(p) == NumValue(num) <==>
            NumValue(num) == 0.0 || Exponent(num) - k == 2 * (|Pairs(num)| - k - 1)
  {
    ghost var ps, e := Pairs(num), Exponent(num);
    assert num != ZERO;
    hide WellFormed, NumValue, Pairs, Exponent, InterfaceValue, PartsValue, BytesToNat, ToPairs, LeadingZeroPairs,
         FromPairs, NegativeNum;
    p := Decompose(num);
    DecomposedValue(num, p);
    ReadingsAgree(p);
    ZeroExactly(p);
    CoefficientPairs(ps, LeadingZeroPairs(ps), FromPairs(ps));
  }

  lemma {:induction false} KeptValue(c: nat, e: int)
    requires |ToPairs(c)| <= MAX_DIGITS
    ensures KeptPairs(c) == ToPairs(c) && PairMag(KeptPairs(c), e) == Times(c, Pow10(2 * (e - |ToPairs(c)| + 1)))
  {
    FromPairsIsMag(ToPairs(c), e);
  }

  /** Parts that can be represented are stored as the number the interface means
      under the same condition. */
  method ComposeForInterface(p: Parts) returns (num: seq<byte>)
    requires p.form == FINITE && Representable(p)
    ensures num == ZERO || WellFormed(num)
    ensures var c := BytesToNat(p.coefficient);
            NumValue(num) == InterfaceValue(p) <==> c == 0 || p.exponent == 2 * (|ToPairs(c)| - 1)
  {
    hide *;
    ReadingsAgree(p);
    if p.coefficient == [0] {
      ZeroCoefficient(p);
    } else {
      PackedValue(p);
    }
    var r := Compose(p);
    num := r.num;
  }

  lemma {:induction false} ZeroCoefficient(p: Parts)
    requires p.coefficient == [0]
    ensures BytesToNat(p.coefficient) == 0 && NumValue(ZERO) == InterfaceValue(p)
  {
    assert [0][..0] == [] && BytesToNat([0 as byte]) == 0;
  }

  lemma {:induction false} PackedValue(p: Parts)
    requires Representable(p)
    ensures var num := Packed(p.negative, p.exponent, KeptPairs(BytesToNat(p.coefficient)));
            WellFormed(num) && NumValue(num) == PartsValue(p) && p.exponent <= 127
  {
    var c := BytesToNat(p.coefficient);
    hide BytesToNat, ToPairs, KeptPairs, Packed, StoredExponent, WellFormed, NumValue, PairMag, Times, Pow10;
    KeptValue(c, p.exponent);
    PackedParts(p.negative, p.exponent, KeptPairs(c));
    StoredExactly(p.exponent);
  }

  /** One hundred is taken apart as one with the exponent one, which the
      interface takes for ten. */
  method HundredExample() returns (p: Parts)
    ensures WellFormed([194, 2]) && NumValue([194, 2]) == Times(1, Pow10(2))
    ensures p == Parts(FINITE, false, [1], 1) && InterfaceValue(p) == Times(1, Pow10(1)) != Times(1, Pow10(2))
  {
    var num: seq<byte> := [194, 2];
    HundredStored(num);
    ScaleUnique(1, 1, 2);
    hide Times, Pow10, Pairs, WellFormed, NumValue;
    p := Decompose(num);
    assert BytesToNat([1]) == 1;
  }

  lemma {:induction false} HundredStored(num: seq<byte>)
    requires num == [194, 2]
    ensures WellFormed(num) && Pairs(num) == [1] && Exponent(num) == 1 && !NegativeNum(num)
    ensures LeadingZeroPairs([1]) == 0 && FromPairs([1]) == 1 && NatToBytes(1) == [1]
    ensures NumValue(num) == Times(1, Pow10(2))
  {
    assert Pairs(num) == [1];
    assert [1][..0] == [] && [1][1..] == [];
    assert NatToBytes(0) == [];
  }

  /** The exponent 63 does not survive. */
  method WrapExample() returns (q: Parts)
    ensures q != Parts(FINITE, false, [1], 63)
  {
    q := DecomposeComposed(Parts(FINITE, false, [1], 63));
  }
}
