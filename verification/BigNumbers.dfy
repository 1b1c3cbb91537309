/** Natural numbers as big-endian rows in base 256 (Go's big.Int.Bytes and
    SetBytes) and in base 100 (the mantissa of an Oracle NUMBER). */
module BigNumbers {
  import opened Decimals
  import opened OciFormat
  import opened Words

  /** A number as Go's decimal interface takes it apart: the coefficient is in base 256. */
  datatype Parts = Parts(form: int, negative: bool, coefficient: seq<byte>, exponent: int)

  const FINITE := 0
  const NAN := 2

  // ----- base 256 -----

  function BytesToNat(bs: seq<byte>): nat {
    if bs == [] then 0 else 256 * BytesToNat(bs[..|bs| - 1]) + bs[|bs| - 1]
  }

  /** The shortest row; none at all for zero. */
  function NatToBytes(n: nat): (bs: seq<byte>)
    ensures BytesToNat(bs) == n
    ensures bs != [] ==> bs[0] != 0
    ensures n == 0 <==> bs == []
  {
    if n == 0 then []
    else
      var front := NatToBytes(n / 256);
      var last: byte := n % 256;
      assert (front + [last])[..|front|] == front;
      front + [last]
  }

  lemma {:induction false} BytesUnique(bs: seq<byte>)
    requires bs != [] ==> bs[0] != 0
    ensures NatToBytes(BytesToNat(bs)) == bs
  {
    if bs != [] {
      var front, last := bs[..|bs| - 1], bs[|bs| - 1];
      BytesUnique(front);
      assert front != [] ==> BytesToNat(front) > 0 by { assert NatToBytes(BytesToNat(front)) == front; }
      assert BytesToNat(bs) / 256 == BytesToNat(front) && BytesToNat(bs) % 256 == last;
      assert bs == front + [last];
    }
  }

  // ----- base 100 -----

  function Hundreds(k: nat): (h: nat)
    ensures h > 0
  {
    if k == 0 then 1 else 100 * Hundreds(k - 1)
  }

  function FromPairs(ps: seq<Pair>): nat {
    if ps == [] then 0 else 100 * FromPairs(ps[..|ps| - 1]) + ps[|ps| - 1]
  }

  /** The shortest row; a single zero for zero. */
  function ToPairs(n: nat): (ps: seq<Pair>)
    ensures FromPairs(ps) == n
    ensures ps != [] && (ps[0] == 0 ==> n == 0 && ps == [0])
  {
    if n < 100 then
      assert [n as Pair][..0] == [];
      [n]
    else
      var front := ToPairs(n / 100);
      assert (front + [n % 100])[..|front|] == front;
      front + [n % 100]
  }

  lemma {:induction false} PairsUnique(ps: seq<Pair>)
    requires ps != [] && ps[0] != 0
    ensures FromPairs(ps) > 0 && ToPairs(FromPairs(ps)) == ps
  {
    var front, last := ps[..|ps| - 1], ps[|ps| - 1];
    assert ps == front + [last];
    if front != [] {
      PairsUnique(front);
      assert FromPairs(ps) / 100 == FromPairs(front) && FromPairs(ps) % 100 == last;
    }
  }

  lemma {:induction false} FromPairsFront(p: Pair, ps: seq<Pair>)
    ensures FromPairs([p] + ps) == p * Hundreds(|ps|) + FromPairs(ps)
  {
    if ps == [] {
      assert [p] + ps == [p] && [p][..0] == [];
    } else {
      var front := ps[..|ps| - 1];
      FromPairsFront(p, front);
      assert ([p] + ps)[..|ps|] == [p] + front;
      assert 100 * (p * Hundreds(|front|)) == p * (100 * Hundreds(|front|));
    }
  }

  function LeadingZeroPairs(ps: seq<Pair>): (k: nat)
    ensures k <= |ps| && (forall i :: 0 <= i < k ==> ps[i] == 0) && (k < |ps| ==> ps[k] != 0)
  {
    if ps == [] || ps[0] != 0 then 0 else 1 + LeadingZeroPairs(ps[1..])
  }

  lemma {:induction false} DropLeadingZeros(ps: seq<Pair>, k: nat, e: int)
    requires k <= |ps| && forall i :: 0 <= i < k ==> ps[i] == 0
    ensures FromPairs(ps[k..]) == FromPairs(ps)
    ensures PairMag(ps[k..], e - k) == PairMag(ps, e)
  {
    if k == 0 {
      assert ps[0..] == ps;
    } else {
      assert ps == [0] + ps[1..];
      FromPairsFront(0, ps[1..]);
      DropLeadingZeros(ps[1..], k - 1, e - 1);
      assert ps[1..][k - 1..] == ps[k..];
    }
  }

  lemma {:induction false} PairMagAppend(ps: seq<Pair>, p: Pair, e: int)
    ensures PairMag(ps + [p], e) == PairMag(ps, e) + Times(p, Pow10(2 * (e - |ps|)))
  {
    if ps == [] {
      assert ps + [p] == [p] && [p][1..] == [];
    } else {
      assert (ps + [p])[1..] == ps[1..] + [p];
      PairMagAppend(ps[1..], p, e - 1);
    }
  }

  lemma {:induction false} TimesHundred(n: nat, p: nat, k: int)
    ensures Times(100 * n + p, Pow10(2 * k)) == Times(n, Pow10(2 * k + 2)) + Times(p, Pow10(2 * k))
  {
    TimesAdd(100 * n, p, Pow10(2 * k));
    TimesTen(10 * n, Pow10(2 * k));
    TimesTen(n, 10.0 * Pow10(2 * k));
    Pow10Step(2 * k);
    Pow10Step(2 * k + 1);
  }

  /** A row of base-100 digits read as one integer. */
  lemma {:induction false} FromPairsIsMag(ps: seq<Pair>, e: int)
    ensures PairMag(ps, e) == Times(FromPairs(ps), Pow10(2 * (e - |ps| + 1)))
  {
    if ps != [] {
      var front, last := ps[..|ps| - 1], ps[|ps| - 1];
      assert ps == front + [last];
      FromPairsIsMag(front, e);
      PairMagAppend(front, last, e);
      TimesHundred(FromPairs(front), last, e - |front|);
    }
  }
}
