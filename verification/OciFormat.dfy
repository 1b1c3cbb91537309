/** The Oracle NUMBER format: an offset base-100 exponent byte followed by
    base-100 digits, both complemented for negative numbers, which may end in
    the byte 102.  `NumValue` is the number an encoding stands for; it is the
    common reference for the Go and the C encoders and decoders.
 */
module OciFormat {
  import opened Decimals
  import opened Words

  type Pair = p: int | 0 <= p < 100

  const SENTINEL: byte := 102
  const ZERO: seq<byte> := [128]
  const MAX_MANTISSA := 20

  // ----- base-100 digits -----

  /** The sum of ps[i] * 100^(e - i). */
  function PairMag(ps: seq<Pair>, e: int): real {
    if ps == [] then 0.0 else Times(ps[0], Pow10(2 * e)) + PairMag(ps[1..], e - 1)
  }

  function PairOf(a: Digit, b: Digit): Pair { 10 * (a as int) + b as int }

  /** Two decimal digits for each base-100 digit. */
  function Unpair(ps: seq<Pair>): (ds: seq<Digit>)
    ensures |ds| == 2 * |ps|
  {
    if ps == [] then [] else [ps[0] / 10, ps[0] % 10] + Unpair(ps[1..])
  }

  function PairUp(ds: seq<Digit>): (ps: seq<Pair>)
    requires |ds| % 2 == 0
    ensures |ds| == 2 * |ps|
  {
    if ds == [] then [] else [PairOf(ds[0], ds[1])] + PairUp(ds[2..])
  }

  lemma {:induction false} UnpairPairUp(ds: seq<Digit>)
    requires |ds| % 2 == 0
    ensures Unpair(PairUp(ds)) == ds
  {
    if ds != [] {
      UnpairPairUp(ds[2..]);
      var p := PairOf(ds[0], ds[1]);
      assert p / 10 == ds[0] && p % 10 == ds[1];
      assert PairUp(ds)[1..] == PairUp(ds[2..]);
      assert ds == [ds[0], ds[1]] + ds[2..];
    }
  }

  lemma {:induction false} PairUpAppend(ds: seq<Digit>, a: Digit, b: Digit)
    requires |ds| % 2 == 0
    ensures PairUp(ds + [a, b]) == PairUp(ds) + [PairOf(a, b)]
  {
    if ds != [] {
      PairUpAppend(ds[2..], a, b);
      assert (ds + [a, b])[2..] == ds[2..] + [a, b];
    }
  }

  lemma {:induction false} UnpairAppend(ps: seq<Pair>, p: Pair)
    ensures Unpair(ps + [p]) == Unpair(ps) + [p / 10, p % 10]
  {
    if ps != [] {
      UnpairAppend(ps[1..], p);
      assert (ps + [p])[1..] == ps[1..] + [p];
    }
  }

  lemma {:induction false} MagTwo(a: Digit, b: Digit, rest: seq<Digit>, e: int)
    ensures Mag([a, b] + rest, e + 2) == Times(PairOf(a, b), Pow10(e)) + Mag(rest, e)
  {
    MagConcat([a, b], rest, e + 2);
    assert [a, b][1..] == [b] && [b][1..] == [];
    ScaleUp(a, b, e);
  }

  lemma {:induction false} PairMagIsMag(ps: seq<Pair>, e: int)
    ensures PairMag(ps, e) == Mag(Unpair(ps), 2 * e + 2)
  {
    if ps != [] {
      PairMagIsMag(ps[1..], e - 1);
      MagTwo(ps[0] / 10, ps[0] % 10, Unpair(ps[1..]), 2 * e);
    }
  }

  // ----- encodings -----

  predicate NegativeNum(num: seq<byte>) { num != [] && num[0] < 128 }

  /** The base-100 exponent of the leading digit. */
  function Exponent(num: seq<byte>): int
    requires num != []
  {
    (if NegativeNum(num) then 127 - num[0] as int else num[0] as int - 128) - 65
  }

  predicate HasSentinel(num: seq<byte>) {
    NegativeNum(num) && |num| >= 2 && num[|num| - 1] == SENTINEL
  }

  function Mantissa(num: seq<byte>): seq<byte>
    requires num != []
  {
    if HasSentinel(num) then num[1..|num| - 1] else num[1..]
  }

  function Decoded(negative: bool, b: byte): int { if negative then 101 - b else b - 1 }

  /** The bytes stand for these base-100 digits. */
  ghost predicate Matches(negative: bool, m: seq<byte>, ps: seq<Pair>) {
    |ps| == |m| && forall i :: 0 <= i < |m| ==> Decoded(negative, m[i]) == ps[i]
  }

  function Encoded(negative: bool, p: Pair): (b: byte)
    ensures Decoded(negative, b) == p && b != SENTINEL
  {
    if negative then 101 - p else p + 1
  }

  predicate WellFormed(num: seq<byte>) {
    |num| >= 2 && forall i :: 0 <= i < |Mantissa(num)| ==> 0 <= Decoded(NegativeNum(num), Mantissa(num)[i]) < 100
  }

  function Pairs(num: seq<byte>): (ps: seq<Pair>)
    requires WellFormed(num)
    ensures |ps| == |Mantissa(num)|
    ensures forall i :: 0 <= i < |ps| ==> ps[i] == Decoded(NegativeNum(num), Mantissa(num)[i])
  {
    seq(|Mantissa(num)|, i requires 0 <= i < |Mantissa(num)| => Decoded(NegativeNum(num), Mantissa(num)[i]))
  }

  /** The number an encoding stands for. */
  function NumValue(num: seq<byte>): real
    requires num == ZERO || WellFormed(num)
  {
    if num == ZERO then 0.0 else Signed(NegativeNum(num), PairMag(Pairs(num), Exponent(num)))
  }

  /** Leading zeros are not stored, and at most 20 mantissa bytes are. */
  predicate Normalized(num: seq<byte>) {
    WellFormed(num) && 1 <= |Pairs(num)| <= MAX_MANTISSA && Pairs(num)[0] != 0
  }

  /** Negative numbers end in 102 unless they have 20 mantissa bytes. */
  predicate SentinelRule(num: seq<byte>) {
    NegativeNum(num) && |num| >= 2 ==> (HasSentinel(num) <==> |Mantissa(num)| < MAX_MANTISSA)
  }

  // ----- assembling an encoding -----

  function ExponentByte(negative: bool, e: int): (b: byte)
    requires -65 <= e <= 62
    ensures negative <==> b < 128
  {
    if negative then 127 - (e + 65) else 128 + (e + 65)
  }

  function EncodedAll(negative: bool, ps: seq<Pair>): (m: seq<byte>)
    ensures |m| == |ps| && forall i :: 0 <= i < |ps| ==> m[i] == Encoded(negative, ps[i])
  {
    seq(|ps|, i requires 0 <= i < |ps| => Encoded(negative, ps[i]))
  }

  /** One more pair of digits, encoded. */
  lemma {:induction false} NextPair(negative: bool, ds: seq<Digit>, i: nat)
    requires i % 2 == 0 && i + 1 < |ds|
    ensures var p := PairOf(ds[i], ds[i + 1]);
            EncodedAll(negative, PairUp(ds[..i + 2])) == EncodedAll(negative, PairUp(ds[..i])) + [Encoded(negative, p)]
  {
    PairUpAppend(ds[..i], ds[i], ds[i + 1]);
    assert ds[..i + 2] == ds[..i] + [ds[i], ds[i + 1]];
  }

  function Assemble(negative: bool, e: int, ps: seq<Pair>, sentinel: bool): seq<byte>
    requires -65 <= e <= 62
  {
    [ExponentByte(negative, e)] + EncodedAll(negative, ps) + (if sentinel then [SENTINEL] else [])
  }

  /** An encoding assembled from its parts has those parts. */
  lemma {:induction false} AssembledParts(negative: bool, e: int, ps: seq<Pair>, sentinel: bool)
    requires -65 <= e <= 62 && ps != [] && (sentinel ==> negative)
    ensures var num := Assemble(negative, e, ps, sentinel);
            && WellFormed(num) && num != ZERO && Pairs(num) == ps && Exponent(num) == e
            && NegativeNum(num) == negative && HasSentinel(num) == sentinel
            && NumValue(num) == Signed(negative, PairMag(ps, e))
  {
    var num := Assemble(negative, e, ps, sentinel);
    AssembledSplit(negative, e, ps, sentinel);
    hide Assemble, Mantissa, HasSentinel, Exponent, NegativeNum, PairMag;
    assert Pairs(num) == ps;
  }

  lemma {:induction false} AssembledSplit(negative: bool, e: int, ps: seq<Pair>, sentinel: bool)
    requires -65 <= e <= 62 && ps != [] && (sentinel ==> negative)
    ensures var num := Assemble(negative, e, ps, sentinel);
            && |num| >= 2 && num != ZERO && Mantissa(num) == EncodedAll(negative, ps) && Exponent(num) == e
            && NegativeNum(num) == negative && HasSentinel(num) == sentinel
  {
    var num := Assemble(negative, e, ps, sentinel);
    var m := EncodedAll(negative, ps);
    assert !sentinel ==> num[|num| - 1] == m[|ps| - 1] != SENTINEL;
  }

  /** A well-formed encoding is determined by its parts. */
  lemma {:induction false} DeterminedByParts(num: seq<byte>)
    requires WellFormed(num)
    ensures -65 <= Exponent(num) <= 62
    ensures num == Assemble(NegativeNum(num), Exponent(num), Pairs(num), HasSentinel(num))
  {
    assert EncodedAll(NegativeNum(num), Pairs(num)) == Mantissa(num);
  }
}
