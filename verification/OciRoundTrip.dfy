/** Text to NUMBER and back, along every path through package num. */
module OciRoundTrip {
  import opened Decimals
  import opened OciFormat
  import OciPrint
  import opened OciScan
  import OciParts

  predicate Accepted(input: string) {
    IsDecimal(Trimmed(input)) && |IntPart(Trimmed(input))| + |FracPart(Trimmed(input))| <= MAX_DIGITS
  }

  lemma {:induction false} ZeroIsCanonical()
    ensures IsCanonical("0") && TextValue("0") == 0.0
  {
    assert IntPart("0") == "0" && FracPart("0") == "";
    MagZeros(Digits("0") + Digits(""), 1);
  }

  /** Printing what was scanned gives the same number, and the same text when
      the text was canonical. */
  method PrintScanned(input: string) returns (accepted: bool, text: string)
    ensures accepted == Accepted(input)
    ensures accepted ==> IsCanonical(text) && TextValue(text) == TextValue(Trimmed(input))
    ensures accepted && IsCanonical(Trimmed(input)) ==> text == Trimmed(input)
  {
    var r := SetString(input);
    if r.Err? {
      return false, "";
    }
    text := OciPrint.Print(r.num);
    ZeroIsCanonical();
    accepted := true;
    if IsCanonical(Trimmed(input)) {
      CanonicalUnique(text, Trimmed(input));
    }
  }

  /** Taking the number apart and putting it together in between changes
      nothing, although scanning stores leading zeros of a fraction and
      composing does not. */
  method PrintRecomposed(input: string) returns (accepted: bool, text: string)
    ensures accepted == Accepted(input)
    ensures accepted ==> IsCanonical(text) && TextValue(text) == TextValue(Trimmed(input))
    ensures accepted && IsCanonical(Trimmed(input)) ==> text == Trimmed(input)
  {
    var r := SetString(input);
    if r.Err? {
      return false, "";
    }
    accepted := true;
    var num := r.num;
    if num == ZERO {
      var p := OciParts.Decompose(num);
      var c := OciParts.Compose(p);
      text := OciPrint.Print(c.num);
      ZeroIsCanonical();
    } else {
      var c := OciParts.ComposeDecomposed(num);
      OciParts.RecomposeParts(num, c.num);
      OciParts.RecomposeValue(num, c.num);
      text := OciPrint.Print(c.num);
    }
    if IsCanonical(Trimmed(input)) {
      CanonicalUnique(text, Trimmed(input));
    }
  }
}
