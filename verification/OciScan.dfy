/** `OCINum.SetString`: from decimal text to the NUMBER format. */
module OciScan {
  import opened Decimals
  import opened OciFormat
  import opened Texts
  import opened Words

  datatype NumError = EndOfInput | TooLong | NoDigit | BadCharacter
  datatype ScanResult = Pass | Fail(error: NumError)
  datatype SetResult = Ok(num: seq<byte>) | Err(error: NumError)

  const MAX_DIGITS := 39

  /** White space on both sides and plus signs in front do not matter. */
  function Trimmed(s: string): string { TrimLeftChar(TrimSpace(s), '+') }

  predicate GoodChar(t: string, k: nat)
    requires k < |t|
  {
    IsDigitChar(t[k]) || (k == 0 && t[k] == '-') || (t[k] == '.' && '.' !in t[..k])
  }

  predicate GoodPrefix(t: string, n: nat)
    requires n <= |t|
  {
    forall k :: 0 <= k < n ==> GoodChar(t, k)
  }

  /** How many digits a good prefix holds. */
  function DigitCount(t: string, n: nat): int
    requires n <= |t|
  {
    n - (if n > 0 && t[0] == '-' then 1 else 0) - (if '.' in t[..n] then 1 else 0)
  }

  /** Scanning character by character accepts exactly the decimal texts. */
  lemma {:induction false} GoodIsDecimal(t: string)
    ensures GoodPrefix(t, |t|) <==> AllDigits(IntPart(t)) && AllDigits(FracPart(t))
    ensures GoodPrefix(t, |t|) ==> DigitCount(t, |t|) == |IntPart(t)| + |FracPart(t)|
  {
    CountParts(t);
    if GoodPrefix(t, |t|) {
      GoodHasDigits(t);
    }
    if AllDigits(IntPart(t)) && AllDigits(FracPart(t)) {
      DigitsAreGood(t);
    }
    hide GoodPrefix, AllDigits, DigitCount, IntPart, FracPart;
  }

  lemma {:induction false} CountParts(t: string)
    ensures DigitCount(t, |t|) == |IntPart(t)| + |FracPart(t)|
  {
    hide IndexOf;
    PointSeen(t);
    assert t[..|t|] == t;
  }

  lemma {:induction false} GoodHasDigits(t: string)
    requires GoodPrefix(t, |t|)
    ensures AllDigits(IntPart(t)) && AllDigits(FracPart(t))
  {
    hide IndexOf;
    var u := Unsigned(t);
    var o, dot := |t| - |u|, IndexOf(u, '.');
    forall k | 0 <= k < |u| && k != dot ensures IsDigitChar(u[k]) {
      GoodHasDigit(t, k);
    }
    hide Unsigned, GoodPrefix;
  }

  lemma {:induction false} GoodHasDigit(t: string, k: nat)
    requires GoodPrefix(t, |t|) && k < |Unsigned(t)| && k != IndexOf(Unsigned(t), '.')
    ensures IsDigitChar(Unsigned(t)[k])
  {
    hide IndexOf;
    var u := Unsigned(t);
    var o, dot := |t| - |u|, IndexOf(u, '.');
    assert GoodChar(t, k + o) && t[k + o] == u[k];
    assert k > dot ==> t[..k + o][dot + o] == u[dot];
    assert k < dot ==> u[k] == u[..dot][k];
  }

  lemma {:induction false} DigitsAreGood(t: string)
    requires AllDigits(IntPart(t)) && AllDigits(FracPart(t))
    ensures GoodPrefix(t, |t|)
  {
    hide IndexOf;
    var u := Unsigned(t);
    var o, dot := |t| - |u|, IndexOf(u, '.');
    PointSeen(t);
    forall k | 0 <= k < |t| ensures GoodChar(t, k) {
      assert o <= k < o + dot ==> t[k] == IntPart(t)[k - o];
      assert o + dot < k ==> t[k] == FracPart(t)[k - o - dot - 1];
    }
  }

  lemma {:induction false} PointSeen(t: string)
    ensures var u := Unsigned(t); '.' in t <==> IndexOf(u, '.') < |u|
    ensures var u := Unsigned(t); forall k :: 0 <= k < |t| - |u| + IndexOf(u, '.') ==> t[k] != '.'
  {
    hide IndexOf;
    var u := Unsigned(t);
    var o, dot := |t| - |u|, IndexOf(u, '.');
    assert forall k :: 0 <= k < |u| ==> u[k] == t[k + o];
    assert dot < |u| ==> t[o + dot] == '.';
    forall k | 0 <= k < o + dot ensures t[k] != '.' {
      assert k >= o ==> t[k] == u[..dot][k - o];
    }
  }

  predicate OnlyZeros(t: string) { forall k :: 0 <= k < |t| ==> t[k] in ['0', '-', '.'] }

  lemma {:induction false} OnlyZerosConcat(a: string, b: string)
    ensures OnlyZeros(a + b) <==> OnlyZeros(a) && OnlyZeros(b)
  {
    assert forall k :: 0 <= k < |a| ==> (a + b)[k] == a[k];
    assert forall k :: 0 <= k < |b| ==> (a + b)[|a| + k] == b[k];
  }

  /** The validating loop. */
  method Scan(t: string) returns (r: ScanResult, numCount: nat, nonZeros: nat)
    ensures r.Pass? <==> GoodPrefix(t, |t|) && DigitCount(t, |t|) <= MAX_DIGITS
    ensures r.Pass? ==> numCount == DigitCount(t, |t|)
    ensures r.Pass? ==> (nonZeros == 0 <==> OnlyZeros(t))
    ensures r.Fail? ==> exists k :: Fails(t, k, r.error)
  {
    var dotSeen := false;
    numCount, nonZeros := 0, 0;
    for i := 0 to |t|
      invariant GoodPrefix(t, i) && numCount == DigitCount(t, i) <= MAX_DIGITS
      invariant dotSeen <==> '.' in t[..i]
      invariant nonZeros == 0 <==> OnlyZeros(t[..i])
    {
      var c := t[i];
      assert t[..i + 1] == t[..i] + [c];
      OnlyZerosConcat(t[..i], [c]);
      if '0' <= c <= '9' {
        numCount := numCount + 1;
        if numCount == MAX_DIGITS + 1 {
          assert Fails(t, i, TooLong);
          TooManyStays(t, i + 1, |t|);
          return Fail(TooLong), numCount, nonZeros;
        }
        if c != '0' {
          nonZeros := nonZeros + 1;
        }
        continue;
      }
      if i == 0 && c == '-' {
        continue;
      }
      if !dotSeen && c == '.' {
        dotSeen := true;
        continue;
      }
      assert Fails(t, i, BadCharacter);
      return Fail(BadCharacter), numCount, nonZeros;
    }
    assert t[..|t|] == t;
    r := Pass;
  }

  /** The first character that cannot be taken, and why. */
  ghost predicate Fails(t: string, k: nat, e: NumError) {
    && k < |t| && GoodPrefix(t, k)
    && match e
       case BadCharacter => !GoodChar(t, k) && DigitCount(t, k) <= MAX_DIGITS
       case TooLong => GoodChar(t, k) && DigitCount(t, k + 1) == MAX_DIGITS + 1
       case _ => false
  }

  lemma {:induction false} TooManyStays(t: string, n: nat, m: nat)
    requires n <= m <= |t| && GoodPrefix(t, n) && DigitCount(t, n) > MAX_DIGITS
    ensures !(GoodPrefix(t, m) && DigitCount(t, m) <= MAX_DIGITS)
    decreases m - n
  {
    if n < m && GoodPrefix(t, m) {
      assert t[..n + 1] == t[..n] + [t[n]];
      assert GoodChar(t, n);
      TooManyStays(t, n + 1, m);
    }
  }

  /** Digits lined up in pairs around the decimal point: `s` reads 0.s * 10^point. */
  ghost predicate Aligned(s: string, point: nat, v: real) {
    && AllDigits(s) && |s| % 2 == 0 && point % 2 == 0 && |s| <= 40 && point <= 40
    && Mag(Digits(s), point) == v
  }

  lemma {:induction false} PadFront(s: string, point: int)
    requires AllDigits(s)
    ensures AllDigits("0" + s) && Mag(Digits("0" + s), point + 1) == Mag(Digits(s), point)
  {
    MagPadded([0], Digits(s), [], point);
    assert Digits("0" + s) == [0] + Digits(s) + [];
  }

  lemma {:induction false} PadBack(s: string, zeros: string, point: int)
    requires AllDigits(s) && forall k :: 0 <= k < |zeros| ==> zeros[k] == '0'
    ensures AllDigits(s + zeros) && Mag(Digits(s + zeros), point) == Mag(Digits(s), point)
  {
    MagPadded([], Digits(s), Zeros(|zeros|), point);
    assert Digits(s + zeros) == [] + Digits(s) + Zeros(|zeros|);
  }

  /** Zeros that make a row even. */
  function Odd(s: string): string { if |s| % 2 == 1 then "0" else "" }

  /** Whole base-100 digits on both sides of the point; a lone zero before it is dropped. */
  function AlignedText(w: string, f: string, dotted: bool): string {
    var front := if dotted && w == "0" then f else Odd(w) + w + f;
    front + Odd(front)
  }

  function AlignedPoint(w: string, dotted: bool): nat {
    if dotted && w == "0" then 0 else |Odd(w)| + |w|
  }

  lemma {:induction false} AlignedValue(w: string, f: string, dotted: bool)
    requires AllDigits(w) && AllDigits(f) && |w| + |f| <= MAX_DIGITS && (!dotted ==> f == "")
    ensures Aligned(AlignedText(w, f, dotted), AlignedPoint(w, dotted), Mag(Digits(w) + Digits(f), |w|))
  {
    var v := Mag(Digits(w + f), |w|);
    assert Digits(w + f) == Digits(w) + Digits(f);
    if dotted && w == "0" {
      PadFront(f, 0);
      EvenUp(f, 0, v);
    } else {
      EvenFront(w, f);
      EvenUp(Odd(w) + w + f, |Odd(w)| + |w|, v);
    }
  }

  lemma {:induction false} EvenFront(w: string, f: string)
    requires AllDigits(w) && AllDigits(f)
    ensures AllDigits(Odd(w) + w + f) && Mag(Digits(Odd(w) + w + f), |Odd(w)| + |w|) == Mag(Digits(w + f), |w|)
  {
    if |w| % 2 == 1 {
      PadFront(w + f, |w|);
      assert "0" + w + f == "0" + (w + f);
    } else {
      assert "" + w + f == w + f;
    }
  }

  lemma {:induction false} EvenUp(s: string, point: nat, v: real)
    requires AllDigits(s) && |s| <= 40 && point % 2 == 0 && point <= 40 && Mag(Digits(s), point) == v
    ensures Aligned(s + Odd(s), point, v)
  {
    PadBack(s, Odd(s), point);
  }

  method Align(u: string, ghost w: string, ghost f: string, ghost dotted: bool) returns (s: string, i: nat)
    requires AllDigits(w) && u == (if dotted then w + ("." + f) else w) && (!dotted ==> f == "")
    ensures s == AlignedText(w, f, dotted) && i == AlignedPoint(w, dotted)
  {
    s, i := u, |u|;
    var j := IndexOf(u, '.');
    DigitsHaveNoPoint(w, if dotted then "." + f else "");
    assert w + "" == w;
    if j < |u| {
      assert u[..j] == w && u[j + 1..] == f;
      s, i := AlignDotted(s, j);
      if |s| % 2 == 1 {
        s := s + "0";
      }
    } else if |s| % 2 == 1 {
      s := "0" + s;
      i := |s|;
    }
  }

  method AlignDotted(u: string, dot: nat) returns (s: string, i: nat)
    requires dot < |u|
    ensures var w, f := u[..dot], u[dot + 1..];
            && s == (if w == "0" then f else Odd(w) + w + f)
            && i == AlignedPoint(w, true)
  {
    s, i := u, dot;
    ghost var w, f := u[..dot], u[dot + 1..];
    if dot == 1 && s[0] == '0' {
      assert w == "0";
      s := s[2..];
      i := 0;
    } else {
      if i % 2 != 0 {
        s := "0" + s;
        i := i + 1;
        assert s[..i] == "0" + w && s[i + 1..] == f;
      }
      s := s[..i] + s[i + 1..];
      assert s == Odd(w) + w + f;
    }
  }

  /** The row without pairs of zeros at the end, down to a last pair. */
  function DropZeroPairs(s: string): (r: string)
    ensures r <= s && |r| % 2 == |s| % 2 && (|s| >= 2 && |s| % 2 == 0 ==> |r| >= 2)
    ensures |r| > 2 ==> !(r[|r| - 2] == '0' && r[|r| - 1] == '0')
  {
    if |s| > 2 && s[|s| - 2] == '0' && s[|s| - 1] == '0' then DropZeroPairs(s[..|s| - 2]) else s
  }

  /** The digits of a text that are stored: whole pairs, none of zeros at the end. */
  function StoredText(t: string): string { DropZeroPairs(AlignedText(IntPart(t), FracPart(t), '.' in t)) }

  /** Pairs of zeros at the end are not stored. */
  method TrimPairs(aligned: string, ghost point: nat, ghost v: real) returns (s: string)
    requires Aligned(aligned, point, v)
    ensures Aligned(s, point, v) && s == DropZeroPairs(aligned)
  {
    hide Mag, Digits, AllDigits;
    s := aligned;
    var j := |s| - 2;
    while j > 0 && s[j] == '0' && s[j + 1] == '0'
      invariant Aligned(s, point, v) && j == |s| - 2 && DropZeroPairs(s) == DropZeroPairs(aligned)
    {
      PairDropped(s, point, v);
      s := s[..j];
      j := j - 2;
    }
  }

  lemma {:induction false} PairDropped(s: string, point: nat, v: real)
    requires Aligned(s, point, v) && |s| > 2 && s[|s| - 2] == '0' && s[|s| - 1] == '0'
    ensures Aligned(s[..|s| - 2], point, v)
  {
    hide Mag, Digits;
    var j := |s| - 2;
    PadBack(s[..j], "00", point);
    assert s == s[..j] + "00";
  }

  lemma {:induction false} PairRead(negative: bool, s: string, i: nat, b: int, m: seq<byte>)
    requires AllDigits(s) && i % 2 == 0 && i + 1 < |s| && m == EncodedAll(negative, PairUp(Digits(s)[..i]))
    requires b == 10 * (s[i] as int - '0' as int) + s[i + 1] as int - '0' as int
    ensures 0 <= b < 100
            && m + [if negative then 101 - b else b + 1] == EncodedAll(negative, PairUp(Digits(s)[..i + 2]))
  {
    assert b == PairOf(Digits(s)[i], Digits(s)[i + 1]);
    hide PairUp, EncodedAll, Digits;
    NextPair(negative, Digits(s), i);
  }

  /** The mantissa bytes of an even row of digits. */
  method EncodePairs(negative: bool, s: string) returns (m: seq<byte>)
    requires AllDigits(s) && |s| % 2 == 0
    ensures m == EncodedAll(negative, PairUp(Digits(s)))
  {
    m := [];
    var i := 0;
    assert Digits(s)[..0] == [];
    assert m == EncodedAll(negative, PairUp([]));
    hide PairUp, EncodedAll, Digits, PairOf, AllDigits;
    while i < |s| - 1
      invariant 0 <= i <= |s| && i % 2 == 0
      invariant m == EncodedAll(negative, PairUp(Digits(s)[..i]))
    {
      var b := 10 * (s[i] as int - '0' as int) + s[i + 1] as int - '0' as int;
      PairRead(negative, s, i, b, m);
      m := m + [if negative then 101 - b else b + 1];
      i := i + 2;
    }
    assert Digits(s)[..i] == Digits(s);
  }

  /** Exponent byte, mantissa, and the trailing 102. */
  method Pack(negative: bool, s: string, i: nat, ghost v: real) returns (num: seq<byte>)
    requires Aligned(s, i, v) && |s| >= 2
    ensures WellFormed(num) && num != ZERO && NumValue(num) == Signed(negative, v)
    ensures Pairs(num) == PairUp(Digits(s)) && Exponent(num) == i / 2 - 1 && NegativeNum(num) == negative
    ensures HasSentinel(num) <==> negative && |s| / 2 <= 18
  {
    hide WellFormed, NumValue, HasSentinel, Pairs, Exponent, NegativeNum, Mag, PairUp, Digits, EncodedAll;
    var exp: int := i / 2 - 1;
    var n := 1 + |s| / 2 + 1;
    if n > 21 {
      n := 21;
    }
    var m := EncodePairs(negative, s);
    exp := exp + 65;
    var sentinel := negative && n < 21;
    var head: byte := if negative then 127 - exp % 128 else 128 + exp % 128;
    num := [head] + m + (if sentinel then [SENTINEL] else []);
    PackedParts(negative, s, i, v, sentinel);
  }

  lemma {:induction false} PackedParts(negative: bool, s: string, i: nat, v: real, sentinel: bool)
    requires Aligned(s, i, v) && |s| >= 2 && (sentinel ==> negative)
    ensures var num := Assemble(negative, i / 2 - 1, PairUp(Digits(s)), sentinel);
            && WellFormed(num) && num != ZERO && NumValue(num) == Signed(negative, v) && HasSentinel(num) == sentinel
            && Pairs(num) == PairUp(Digits(s)) && Exponent(num) == i / 2 - 1 && NegativeNum(num) == negative
  {
    hide Assemble, WellFormed, NumValue, HasSentinel, Pairs, Exponent, NegativeNum, Mag, PairMag, PairUp, Unpair;
    var ps := PairUp(Digits(s));
    AssembledParts(negative, i / 2 - 1, ps, sentinel);
    UnpairPairUp(Digits(s));
    PairMagIsMag(ps, i / 2 - 1);
  }

  /** Every part of the encoding, from the text. */
  ghost predicate Stores(num: seq<byte>, t: string) {
    && WellFormed(num) && NegativeNum(num) == IsNegative(t)
    && Exponent(num) == AlignedPoint(IntPart(t), '.' in t) / 2 - 1
    && AllDigits(StoredText(t)) && |StoredText(t)| % 2 == 0 && Pairs(num) == PairUp(Digits(StoredText(t)))
    && (HasSentinel(num) <==> IsNegative(t) && |StoredText(t)| <= 36)
  }

  /** Everything after the scan, for a text with a digit other than zero. */
  method Encode(t: string) returns (num: seq<byte>)
    requires IsDecimal(t) && |IntPart(t)| + |FracPart(t)| <= MAX_DIGITS && TextValue(t) != 0.0
    ensures WellFormed(num) && num != ZERO && NumValue(num) == TextValue(t)
    ensures Stores(num, t) && 1 <= |Pairs(num)| <= MAX_MANTISSA && -1 <= Exponent(num) <= 19
    ensures Pairs(num)[0] == 0 <==> StartsWithZeroPair(t)
  {
    var s := t;
    var negative := false;
    if t[0] == '-' {
      negative := true;
      s := s[1..];
    }
    ghost var w, f, v := IntPart(t), FracPart(t), Mag(Digits(IntPart(t)) + Digits(FracPart(t)), |IntPart(t)|);
    SplitUnsigned(t);
    var i;
    s, i := Align(s, w, f, '.' in t);
    AlignedValue(w, f, '.' in t);
    NonEmpty(s, i, v);
    ghost var aligned := s;
    s := TrimPairs(s, i, v);
    num := Pack(negative, s, i, v);
    FirstPair(s, aligned);
  }

  /** Whether the padded text starts with two zeros, which are then stored. */
  predicate StartsWithZeroPair(t: string) { "00" <= AlignedText(IntPart(t), FracPart(t), '.' in t) }

  lemma {:induction false} FirstPair(s: string, aligned: string)
    requires s <= aligned && |s| >= 2 && AllDigits(s) && |s| % 2 == 0
    ensures PairUp(Digits(s))[0] == 0 <==> "00" <= aligned
  {
    var ds := Digits(s);
    assert PairUp(ds)[0] == PairOf(ds[0], ds[1]);
    assert s[0] == CharOf(ds[0]) && s[1] == CharOf(ds[1]);
  }

  lemma {:induction false} SplitUnsigned(t: string)
    ensures Unsigned(t) == (if '.' in t then IntPart(t) + ("." + FracPart(t)) else IntPart(t))
    ensures '.' !in t ==> FracPart(t) == ""
  {
    hide IndexOf;
    PointSeen(t);
    var u := Unsigned(t);
    var dot := IndexOf(u, '.');
    if dot < |u| {
      assert u == u[..dot] + ("." + u[dot + 1..]);
    } else {
      assert u[..dot] == u;
    }
  }

  lemma {:induction false} NonEmpty(s: string, point: nat, v: real)
    requires Aligned(s, point, v) && v != 0.0
    ensures |s| >= 2
  {
  }

  /** `OCINum.SetString`. */
  method SetString(input: string) returns (r: SetResult)
    ensures r.Ok? <==> IsDecimal(Trimmed(input)) && |IntPart(Trimmed(input))| + |FracPart(Trimmed(input))| <= MAX_DIGITS
    ensures r.Ok? ==> (r.num == ZERO || WellFormed(r.num)) && NumValue(r.num) == TextValue(Trimmed(input))
    ensures r == Err(EndOfInput) <==> Trimmed(input) == ""
    ensures r == Err(NoDigit) <==> Trimmed(input) in ["-", ".", "-."]
    ensures r == Err(TooLong) || r == Err(BadCharacter) ==> exists k :: Fails(Trimmed(input), k, r.error)
    ensures r.Ok? ==> (r.num == ZERO <==> TextValue(Trimmed(input)) == 0.0)
    ensures r.Ok? && r.num != ZERO ==>
              && Stores(r.num, Trimmed(input)) && 1 <= |Pairs(r.num)| <= MAX_MANTISSA && -1 <= Exponent(r.num) <= 19
              && (SentinelRule(r.num) <==> !(IsNegative(Trimmed(input)) && |StoredText(Trimmed(input))| == 38))
              && (Normalized(r.num) <==> !StartsWithZeroPair(Trimmed(input)))
  {
    var s := Trimmed(input);
    if |s| == 0 {
      return Err(EndOfInput);
    }
    if s == "0" {
      ZeroText(s);
      return Ok(ZERO);
    }
    GoodIsDecimal(s);
    var outcome, numCount, nonZeros := Scan(s);
    if outcome.Fail? {
      return Err(outcome.error);
    }
    if numCount == 0 {
      NoDigitTexts(s);
      return Err(NoDigit);
    }
    ZeroText(s);
    if nonZeros == 0 {
      return Ok(ZERO);
    }
    var num := Encode(s);
    StoresRule(num, s);
    r := Ok(num);
  }

  /** One pair too early the sentinel is left out. */
  lemma {:induction false} StoresRule(num: seq<byte>, t: string)
    requires Stores(num, t)
    ensures SentinelRule(num) <==> !(IsNegative(t) && |StoredText(t)| == 38)
  {
    hide PairUp, Digits, AllDigits, Mantissa, HasSentinel, NegativeNum, StoredText, AlignedPoint, Exponent, IntPart;
    assert |Mantissa(num)| == |StoredText(t)| / 2;
  }

  lemma {:induction false} NoDigitTexts(t: string)
    requires t != "" && GoodPrefix(t, |t|)
    ensures DigitCount(t, |t|) == 0 <==> t in ["-", ".", "-."]
  {
    assert t[..|t|] == t;
    assert GoodChar(t, 0);
    assert |t| == 1 ==> t == [t[0]];
    assert |t| == 2 ==> t == [t[0], t[1]] && GoodChar(t, 1);
  }

  /** A text denotes zero exactly when it has no other digit than zeros. */
  lemma {:induction false} ZeroText(t: string)
    requires IsDecimal(t)
    ensures TextValue(t) == 0.0 <==> OnlyZeros(t)
  {
    ZeroParts(t);
    ZeroDigits(IntPart(t), FracPart(t));
    hide Mag, IntPart, FracPart, OnlyZeros;
  }

  lemma {:induction false} ZeroParts(t: string)
    ensures OnlyZeros(t) <==> OnlyZeros(IntPart(t)) && OnlyZeros(FracPart(t))
  {
    assert OnlyZeros("") && OnlyZeros("-") && OnlyZeros(".");
    assert t == Sign(IsNegative(t)) + Unsigned(t);
    hide IndexOf, Unsigned, IntPart, FracPart, OnlyZeros;
    var w, f := IntPart(t), FracPart(t);
    SplitUnsigned(t);
    OnlyZerosConcat(".", f);
    OnlyZerosConcat(w, "." + f);
    OnlyZerosConcat(Sign(IsNegative(t)), Unsigned(t));
  }

  lemma {:induction false} ZeroDigits(w: string, f: string)
    requires AllDigits(w) && AllDigits(f)
    ensures Mag(Digits(w) + Digits(f), |w|) == 0.0 <==> OnlyZeros(w) && OnlyZeros(f)
  {
    hide Mag;
    ZeroRow(Digits(w) + Digits(f), |w|);
    assert Digits(w) + Digits(f) == Digits(w + f);
    ZeroChars(w + f);
    OnlyZerosConcat(w, f);
  }

  lemma {:induction false} ZeroChars(s: string)
    requires AllDigits(s)
    ensures OnlyZeros(s) <==> forall k :: 0 <= k < |s| ==> Digits(s)[k] == 0
  {
    assert forall k :: 0 <= k < |s| ==> IsDigitChar(s[k]) && (Digits(s)[k] == 0 <==> s[k] == '0');
  }

  lemma {:induction false} ZeroRow(ds: seq<Digit>, point: int)
    ensures Mag(ds, point) == 0.0 <==> forall k :: 0 <= k < |ds| ==> ds[k] == 0
  {
    if forall k :: 0 <= k < |ds| ==> ds[k] == 0 {
      MagZeros(ds, point);
    } else if ds[0] == 0 {
      assert ds == [0] + ds[1..];
      ZeroRow(ds[1..], point - 1);
      assert exists k :: 0 <= k < |ds[1..]| && ds[1..][k] != 0;
    } else {
      MagBounds(ds, point);
      Pow10Positive(point - 1);
    }
  }

  const SMALL := "0.0005"

  lemma {:induction false} SmallTrimmed()
    ensures Trimmed(SMALL) == SMALL && !OnlyZeros(SMALL)
  {
    assert SMALL[0] == '0' && SMALL[|SMALL| - 1] == '5' && !IsSpace('0') && !IsSpace('5');
    assert SMALL[|SMALL| - 1] !in ['0', '-', '.'];
    hide IsSpace;
    TrimmedAsIs(SMALL);
  }

  lemma {:induction false} TrimmedAsIs(s: string)
    requires s != "" && !IsSpace(s[0]) && !IsSpace(s[|s| - 1]) && s[0] != '+'
    ensures Trimmed(s) == s
  {
    hide IsSpace;
    assert TrimLeft(s) == s;
    assert TrimRight(s) == s;
  }

  lemma {:induction false} SmallParts()
    ensures IntPart(SMALL) == "0" && FracPart(SMALL) == "0005" && '.' in SMALL
  {
    assert SMALL[1] == '.';
    assert IndexOf(SMALL[1..], '.') == 0;
  }

  /** A small fraction starts with a stored zero. */
  method ZeroPairExample() returns (r: SetResult)
    ensures r.Ok? && WellFormed(r.num) && !Normalized(r.num)
  {
    SmallTrimmed();
    SmallParts();
    hide Trimmed, OnlyZeros, IntPart, FracPart, Mag, Normalized, WellFormed, NumValue, Pairs, Exponent, SentinelRule;
    assert AllDigits("0") && AllDigits("0005");
    ZeroText(SMALL);
    assert Odd("0005") == "" && "0005" + "" == "0005" && "00" <= "0005";
    r := SetString(SMALL);
  }

  function Ones(n: nat): (s: string)
    ensures |s| == n && forall i :: 0 <= i < n ==> s[i] == '1'
  {
    seq(n, _ => '1')
  }

  lemma {:induction false} OnesParts(n: nat)
    requires n > 0 && n % 2 == 0
    ensures var t := "-" + Ones(n);
            && IsNegative(t) && IntPart(t) == Ones(n) && FracPart(t) == "" && '.' !in t && AllDigits(Ones(n))
            && StoredText(t) == Ones(n) && Trimmed(t) == t && !OnlyZeros(t)
  {
    var t := "-" + Ones(n);
    assert !IsSpace('-') && !IsSpace('1') && t[1] == '1' && t[|t| - 1] == '1';
    assert t[1] !in ['0', '-', '.'];
    assert Numeral(true, Ones(n), "") == t + "" == t;
    NumeralParts(true, Ones(n), "");
    hide IsSpace, Ones, IndexOf, OnlyZeros;
    TrimmedAsIs(t);
    assert "" + Ones(n) + "" + "" == Ones(n);
  }

  /** A minus sign and 38 ones: 19 pairs, and no sentinel behind them. */
  method SentinelExample() returns (r: SetResult)
    ensures r.Ok? && WellFormed(r.num) && |Pairs(r.num)| == 19 && !SentinelRule(r.num)
  {
    var t := "-" + Ones(38);
    OnesParts(38);
    assert AllDigits("");
    hide Trimmed, OnlyZeros, IntPart, FracPart, Mag, WellFormed, NumValue, Pairs, Exponent, SentinelRule, StoredText,
         Ones;
    ZeroText(t);
    r := SetString(t);
  }
}
