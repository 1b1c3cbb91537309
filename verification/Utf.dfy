/** UTF-8 (section 3 of RFC 3629) and UTF-16 lengths (section 2.1 of RFC 2781),
    and Go's two decoders of package unicode/utf8. */
module Utf {
  import opened Words

  const RUNE_ERROR := 0xFFFD

  function Encode(c: char): (bs: seq<byte>)
    ensures 1 <= |bs| <= 4
  {
    var n := c as int;
    if n < 0x80 then [n]
    else if n < 0x800 then [0xC0 + n / 64, 0x80 + n % 64]
    else if n < 0x10000 then [0xE0 + n / 4096, 0x80 + n / 64 % 64, 0x80 + n % 64]
    else [0xF0 + n / 262144, 0x80 + n / 4096 % 64, 0x80 + n / 64 % 64, 0x80 + n % 64]
  }

  function EncodeAll(s: string): seq<byte> {
    if s == "" then [] else Encode(s[0]) + EncodeAll(s[1..])
  }

  /** UTF-16 code units of a character. */
  function Units(c: char): nat { if c as int < 0x10000 then 1 else 2 }

  function UnitsOf(s: string): nat {
    if s == "" then 0 else Units(s[0]) + UnitsOf(s[1..])
  }

  predicate IsCont(b: byte) { 0x80 <= b <= 0xBF }

  function Low(b: byte): int { b as int - 0x80 }

  predicate RuneStart(b: byte) { !IsCont(b) }

  /** What may follow a lead byte, in the second place. */
  predicate SecondOk(b0: byte, b1: byte) {
    (if b0 == 0xE0 then 0xA0 else if b0 == 0xF0 then 0x90 else 0x80) <= b1
    <= (if b0 == 0xED then 0x9F else if b0 == 0xF4 then 0x8F else 0xBF)
  }

  /** utf8.DecodeRune: the first rune and its width; a wrong byte has width one. */
  function DecodeRune(p: seq<byte>): (r: (int, nat))
    ensures r.1 <= |p| && (p != [] ==> r.1 >= 1)
  {
    if p == [] then (RUNE_ERROR, 0)
    else
      var b0 := p[0];
      if b0 < 0x80 then (b0, 1)
      else if 0xC2 <= b0 <= 0xDF && |p| >= 2 && IsCont(p[1]) then ((b0 as int - 0xC0) * 64 + Low(p[1]), 2)
      else if 0xE0 <= b0 <= 0xEF && |p| >= 3 && SecondOk(b0, p[1]) && IsCont(p[2]) then
        ((b0 as int - 0xE0) * 4096 + Low(p[1]) * 64 + Low(p[2]), 3)
      else if 0xF0 <= b0 <= 0xF4 && |p| >= 4 && SecondOk(b0, p[1]) && IsCont(p[2]) && IsCont(p[3]) then
        ((b0 as int - 0xF0) * 262144 + Low(p[1]) * 4096 + Low(p[2]) * 64 + Low(p[3]), 4)
      else (RUNE_ERROR, 1)
  }

  /** The nearest rune start before `start`, not below `lim`. */
  function StepBack(p: seq<byte>, start: int, lim: nat): (r: int)
    requires start < |p|
    ensures r <= start && r >= (if start < lim then start else lim - 1)
    decreases start - lim
  {
    if start < lim then start
    else if RuneStart(p[start]) then start
    else StepBack(p, start - 1, lim)
  }

  /** utf8.DecodeLastRune. */
  function DecodeLastRune(p: seq<byte>): (r: (int, nat)) {
    if p == [] then (RUNE_ERROR, 0)
    else
      var end := |p|;
      if p[end - 1] < 0x80 then (p[end - 1], 1)
      else
        var lim := if end < 4 then 0 else end - 4;
        var s := StepBack(p, end - 2, lim);
        var start := if s < 0 then 0 else s;
        var d := DecodeRune(p[start..]);
        if start + d.1 != end then (RUNE_ERROR, 1) else d
  }

  // ----- decoding what was encoded -----

  lemma {:induction false} DecodeEncoded(c: char, rest: seq<byte>)
    ensures DecodeRune(Encode(c) + rest) == (c as int, |Encode(c)|)
  {
    var n := c as int;
    var p := Encode(c) + rest;
    if 0x800 <= n < 0x10000 {
      ThreeBytes(n, p);
    } else if n >= 0x10000 {
      FourBytes(n, p);
    }
  }

  lemma {:induction false} ThreeBytes(n: int, p: seq<byte>)
    requires 0x800 <= n < 0x10000 && !(0xD800 <= n < 0xE000) && |p| >= 3
    requires p[0] == 0xE0 + n / 4096 && p[1] == 0x80 + n / 64 % 64 && p[2] == 0x80 + n % 64
    ensures DecodeRune(p) == (n, 3)
  {
    assert n == n / 4096 * 4096 + n / 64 % 64 * 64 + n % 64;
  }

  lemma {:induction false} FourBytes(n: int, p: seq<byte>)
    requires 0x10000 <= n < 0x110000 && |p| >= 4
    requires p[0] == 0xF0 + n / 262144 && p[1] == 0x80 + n / 4096 % 64 && p[2] == 0x80 + n / 64 % 64
             && p[3] == 0x80 + n % 64
    ensures DecodeRune(p) == (n, 4)
  {
    FourParts(n);
    var a, b, c, d := n / 262144, n / 4096 % 64, n / 64 % 64, n % 64;
    assert Low(p[1]) == b && Low(p[2]) == c && Low(p[3]) == d;
    assert SecondOk(p[0], p[1]);
  }

  lemma {:induction false} FourParts(n: int)
    requires 0x10000 <= n < 0x110000
    ensures var a, b, c, d := n / 262144, n / 4096 % 64, n / 64 % 64, n % 64;
            && n == a * 262144 + b * 4096 + c * 64 + d && 0 <= a <= 4 && 0 <= b < 64 && 0 <= c < 64 && 0 <= d < 64
            && (a == 0 ==> b >= 16) && (a == 4 ==> b < 16)
  {
    assert n / 262144 == n / 4096 / 64 && n / 4096 == n / 64 / 64;
  }

  lemma {:induction false} TwoDigits(a: nat, b: nat)
    requires b < 64
    ensures (a * 64 + b) / 64 == a && (a * 64 + b) % 64 == b
  {
  }

  predicate IsScalar(n: int) { 0 <= n < 0xD800 || 0xE000 <= n < 0x110000 }

  lemma {:induction false} ThreeBack(b0: byte, b1: byte, b2: byte)
    requires 0xE0 <= b0 <= 0xEF && SecondOk(b0, b1) && IsCont(b2)
    ensures var n := (b0 as int - 0xE0) * 4096 + Low(b1) * 64 + Low(b2);
            IsScalar(n) && Encode(n as char) == [b0, b1, b2]
  {
    var a, b, c := b0 as int - 0xE0, Low(b1), Low(b2);
    var n := a * 4096 + b * 64 + c;
    TwoDigits(a * 64 + b, c);
    TwoDigits(a, b);
    assert n == (a * 64 + b) * 64 + c && n / 4096 == n / 64 / 64;
  }

  lemma {:induction false} FourBack(b0: byte, b1: byte, b2: byte, b3: byte)
    requires 0xF0 <= b0 <= 0xF4 && SecondOk(b0, b1) && IsCont(b2) && IsCont(b3)
    ensures var n := (b0 as int - 0xF0) * 262144 + Low(b1) * 4096 + Low(b2) * 64 + Low(b3);
            IsScalar(n) && Encode(n as char) == [b0, b1, b2, b3]
  {
    var a, b, c, d := b0 as int - 0xF0, Low(b1), Low(b2), Low(b3);
    var n := a * 262144 + b * 4096 + c * 64 + d;
    TwoDigits((a * 64 + b) * 64 + c, d);
    TwoDigits(a * 64 + b, c);
    TwoDigits(a, b);
    assert n == ((a * 64 + b) * 64 + c) * 64 + d && n / 4096 == n / 64 / 64 && n / 262144 == n / 4096 / 64;
  }

  /** Whatever the bytes, they start with the encoding of the character that is
      found, or the first byte is wrong. */
  lemma {:induction false} Decoded(p: seq<byte>)
    requires p != []
    ensures var (n, width) := DecodeRune(p);
            (IsScalar(n) && p[..width] == Encode(n as char)) || (n, width) == (RUNE_ERROR, 1)
  {
    var (n, width) := DecodeRune(p);
    if width == 2 {
      TwoDigits(p[0] as int - 0xC0, Low(p[1]));
      assert p[..2] == [p[0], p[1]];
    } else if width == 3 {
      ThreeBack(p[0], p[1], p[2]);
      assert p[..3] == [p[0], p[1], p[2]];
    } else if width == 4 {
      FourBack(p[0], p[1], p[2], p[3]);
      assert p[..4] == [p[0], p[1], p[2], p[3]];
    } else if p[0] < 0x80 {
      assert p[..1] == [p[0]];
    }
  }

  lemma {:induction false} EncodedBytes(c: char)
    ensures var e := Encode(c);
            && RuneStart(e[0]) && (forall i :: 1 <= i < |e| ==> IsCont(e[i])) && (|e| > 1 ==> e[0] >= 0x80)
            && (|e| == 1 ==> e[0] == c as int < 0x80)
  {
    var e := Encode(c);
    assert |e| > 1 ==> IsCont(e[1]);
    assert |e| > 2 ==> IsCont(e[2]);
    assert |e| > 3 ==> IsCont(e[3]);
  }

  /** Whatever stands before it, the last encoded character is found. */
  lemma {:induction false} LastEncoded(x: seq<byte>, c: char)
    ensures DecodeLastRune(x + Encode(c)) == (c as int, |Encode(c)|)
  {
    hide Encode, DecodeRune;
    var e := Encode(c);
    var p := x + e;
    var end := |p|;
    EncodedBytes(c);
    DecodeEncoded(c, []);
    assert e + [] == e;
    if |e| == 1 {
      assert p[end - 1] == e[0];
    } else {
      assert p[end - 1] == e[|e| - 1];
      StepBackTo(p, |x|, end - 2, if end < 4 then 0 else end - 4);
      assert p[|x|..] == e;
    }
  }

  lemma {:induction false} StepBackTo(p: seq<byte>, at: nat, start: int, lim: nat)
    requires lim <= at <= start < |p| && RuneStart(p[at]) && forall i :: at < i <= start ==> IsCont(p[i])
    ensures StepBack(p, start, lim) == at
    decreases start
  {
    if at < start {
      StepBackTo(p, at, start - 1, lim);
    }
  }

  // ----- lengths -----

  lemma {:induction false} EncodeConcat(s: string, t: string)
    ensures EncodeAll(s + t) == EncodeAll(s) + EncodeAll(t) && UnitsOf(s + t) == UnitsOf(s) + UnitsOf(t)
  {
    if s == "" {
      assert s + t == t;
    } else {
      assert (s + t)[1..] == s[1..] + t;
      EncodeConcat(s[1..], t);
    }
  }

  /** A text never needs more than three bytes for a code unit. */
  lemma {:induction false} BytesPerUnit(s: string)
    ensures UnitsOf(s) <= |EncodeAll(s)| <= 3 * UnitsOf(s)
    ensures s != "" ==> UnitsOf(s) > 0
  {
    if s != "" {
      BytesPerUnit(s[1..]);
    }
  }

  // ----- erroneous endings -----

  /** Every non-empty piece of `tail` behind a text ends in an error. */
  ghost predicate Spoilt(before: seq<byte>, tail: seq<byte>) {
    forall m :: 0 < m <= |tail| ==> DecodeLastRune(before + tail[..m]).0 == RUNE_ERROR
  }

  /** The last character of a text. */
  lemma {:induction false} LastOf(s: string)
    requires s != ""
    ensures EncodeAll(s) == EncodeAll(s[..|s| - 1]) + Encode(s[|s| - 1])
  {
    var front, last := s[..|s| - 1], s[|s| - 1..];
    assert s == front + last;
    EncodeConcat(front, last);
    assert last[1..] == "" && last[0] == s[|s| - 1];
    assert EncodeAll(last) == Encode(s[|s| - 1]) + [];
  }

  /** Half of a surrogate pair, encoded on its own, is such an ending. */
  lemma {:induction false} SurrogateSpoils(before: seq<byte>, b1: byte, b2: byte)
    requires 0xA0 <= b1 <= 0xBF && IsCont(b2)
    ensures Spoilt(before, [0xED, b1, b2])
  {
    var tail: seq<byte> := [0xED, b1, b2];
    var n := |before|;
    forall m | 0 < m <= 3 ensures DecodeLastRune(before + tail[..m]).0 == RUNE_ERROR {
      SurrogateCut(before, b1, b2, m);
    }
  }

  lemma {:induction false} SurrogateCut(before: seq<byte>, b1: byte, b2: byte, m: nat)
    requires 0xA0 <= b1 <= 0xBF && IsCont(b2) && 0 < m <= 3
    ensures DecodeLastRune(before + [0xED, b1, b2][..m]).0 == RUNE_ERROR
  {
    var tail: seq<byte> := [0xED, b1, b2];
    var n, p := |before|, before + tail[..m];
    assert p[n] == 0xED && p[|p| - 1] >= 0x80;
    assert m == 3 ==> p[n + 1] == b1;
    if m > 1 {
      StepBackTo(p, n, |p| - 2, if |p| < 4 then 0 else |p| - 4);
      assert p[n..] == tail[..m];
    } else {
      LeadAlone(p);
    }
  }

  /** A lead byte at the very end is an error. */
  lemma {:induction false} LeadAlone(p: seq<byte>)
    requires p != [] && p[|p| - 1] >= 0xC0
    ensures DecodeLastRune(p).0 == RUNE_ERROR
  {
    var end := |p|;
    var lim := if end < 4 then 0 else end - 4;
    var s := StepBack(p, end - 2, lim);
    var start := if s < 0 then 0 else s;
    var d := DecodeRune(p[start..]);
    if d.1 > 1 {
      assert IsCont(p[start..][d.1 - 1]);
    }
  }

  lemma {:induction false} ReplacementBytes(c: char)
    requires c as int == RUNE_ERROR
    ensures Encode(c) == [0xEF, 0xBF, 0xBD]
  {
  }

  /** U+FFFD itself is taken for an error, and so are its first bytes. */
  lemma {:induction false} ReplacementSpoils(before: seq<byte>, c: char)
    requires c as int == RUNE_ERROR
    ensures Spoilt(before, Encode(c))
  {
    hide DecodeLastRune, Encode;
    ReplacementBytes(c);
    LeadAlone(before + [0xEF]);
    LeadCut(before);
    LastEncoded(before, c);
    var tail := Encode(c);
    forall m | 0 < m <= 3 ensures DecodeLastRune(before + tail[..m]).0 == RUNE_ERROR {
      assert tail[..m] == if m == 1 then [0xEF] else if m == 2 then [0xEF, 0xBF] else tail;
    }
  }

  lemma {:induction false} LeadCut(before: seq<byte>)
    ensures DecodeLastRune(before + [0xEF, 0xBF]).0 == RUNE_ERROR
  {
    var n, p := |before|, before + [0xEF, 0xBF];
    assert p[n] == 0xEF && p[n + 1] == 0xBF;
    StepBackTo(p, n, n, if |p| < 4 then 0 else |p| - 4);
    assert p[n..] == [0xEF, 0xBF];
  }
}
