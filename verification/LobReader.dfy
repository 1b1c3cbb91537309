/** The buffered LOB reader (lob.go). */
module LobReader {
  import opened Utf
  import opened Words

  /** What the database holds: bytes, or characters. */
  datatype Lob = Blob(content: seq<byte>) | Clob(text: string) {
    ghost function Bytes(): seq<byte> { match this case Blob(content) => content case Clob(text) => EncodeAll(text) }

    /** In bytes, or in UTF-16 code units. */
    function Size(): nat { match this case Blob(content) => |content| case Clob(text) => UnitsOf(text) }

    predicate Clear() { Clob? ==> Plain(text) }
  }

  datatype Status = Good | EndOfFile | ShortBuffer

  function Max(a: int, b: int): int { if a >= b then a else b }

  /** U+FFFD is what a decoding error looks like. */
  predicate Plain(text: string) { forall i :: 0 <= i < |text| ==> text[i] as int != RUNE_ERROR }

  /** The text without U+FFFD at its end. */
  function Kept(w: string): (k: string)
    ensures k <= w
  {
    if w != "" && w[|w| - 1] as int == RUNE_ERROR then Kept(w[..|w| - 1]) else w
  }

  lemma {:induction false} PlainKept(w: string)
    requires Plain(w)
    ensures Kept(w) == w
  {
  }

  // ----- what the library may answer -----

  /** The bytes for an offset and a buffer size; how many characters they are. */
  type Library = (nat, nat) -> seq<byte>
  type Counts = (nat, nat) -> nat

  /** Some of the bytes from `offset` on, at least one. */
  ghost predicate LegalBytes(content: seq<byte>, offset: nat, amount: nat, reply: seq<byte>) {
    && 0 < |reply| <= amount && offset + |reply| <= |content|
    && reply == content[offset..offset + |reply|]
  }

  /** The encoding of the next `j` characters, within the code units asked for,
      and at least one if it fits.  A code unit to spare may bring half a
      character, which shows up as an erroneous ending. */
  ghost predicate LegalText(text: string, taken: nat, amount: nat, reply: seq<byte>, j: nat) {
    && taken + j <= |text|
    && var w := text[taken..taken + j];
       var e := EncodeAll(w);
    && UnitsOf(w) <= amount
    && (taken < |text| && Units(text[taken]) <= amount ==> j > 0)
    && |e| <= |reply| && reply[..|e|] == e
    && (|reply| > |e| ==> |reply| <= |e| + 3 && UnitsOf(w) < amount && taken + j < |text|)
    && Spoilt(e, reply[|e|..])
  }

  /** A library that answers every question legally; `counts` says how many characters come. */
  ghost predicate Answers(lob: Lob, library: Library, counts: Counts) {
    match lob
    case Blob(content) =>
      forall o: nat, len: nat {:trigger library(o, len)} :: o < |content| && len >= 1 ==>
        LegalBytes(content, o, len, library(o, len))
    case Clob(text) =>
      forall k: nat, len: nat {:trigger counts(k, len)} :: k <= |text| && len >= 4 ==>
        LegalText(text, k, len / 4, library(UnitsOf(text[..k]), len), counts(k, len))
  }

  /** How many characters of an answer are kept. */
  ghost function Step(text: string, k: nat, len: nat, counts: Counts): (n: nat)
    ensures k <= |text| ==> k + n <= |text|
  {
    var j := counts(k, len);
    if k + j <= |text| then |Kept(text[k..k + j])| else 0
  }

  /** How far a text is read from character `k` on, by a buffer of this size. */
  ghost function Walk(text: string, k: nat, len: nat, counts: Counts): (e: nat)
    requires k <= |text|
    ensures k <= e <= |text|
    decreases |text| - k
  {
    var n := Step(text, k, len, counts);
    if n == 0 then k else Walk(text, k + n, len, counts)
  }

  /** No answer consists of U+FFFD only. */
  ghost predicate Spoken(lob: Lob, counts: Counts) {
    lob.Clob? ==>
      forall k: nat, len: nat {:trigger counts(k, len)} :: k < |lob.text| && len >= 4 && counts(k, len) > 0 ==>
        Step(lob.text, k, len, counts) > 0
  }

  /** Asking for len/4 code units never needs more than len bytes. */
  lemma {:induction false} ReplyFits(text: string, taken: nat, len: nat, reply: seq<byte>, j: nat)
    requires LegalText(text, taken, len / 4, reply, j)
    ensures |reply| <= len
  {
    BytesPerUnit(text[taken..taken + j]);
  }

  /** What is left of an answer while its ending is cut off: the bytes of `x`
      and some of `t`, every piece of which is an error. */
  ghost predicate Cutting(p: seq<byte>, w: string, x: string, t: seq<byte>, n: nat) {
    var e := EncodeAll(x);
    && Kept(x) == Kept(w) && Spoilt(e, t)
    && |e| <= n <= |e| + |t| <= |p| && p[..|e| + |t|] == e + t
  }

  lemma {:induction false} CutMore(p: seq<byte>, w: string, x: string, t: seq<byte>, n: nat)
    requires Cutting(p, w, x, t, n) && n > |EncodeAll(x)|
    ensures DecodeLastRune(p[..n]).0 == RUNE_ERROR && p[..n] != [] && Cutting(p, w, x, t, n - 1)
  {
    hide DecodeLastRune, EncodeAll, Kept;
    assert p[..n] == EncodeAll(x) + t[..n - |EncodeAll(x)|];
  }

  lemma {:induction false} CutChar(p: seq<byte>, w: string, x: string, t: seq<byte>)
    requires Cutting(p, w, x, t, |EncodeAll(x)|) && x != "" && x[|x| - 1] as int == RUNE_ERROR
    ensures var y := x[..|x| - 1];
            |EncodeAll(y)| < |EncodeAll(x)| && Cutting(p, w, y, Encode(x[|x| - 1]), |EncodeAll(x)|)
  {
    var y, c := x[..|x| - 1], x[|x| - 1];
    assert Kept(x) == Kept(y);
    LastOf(x);
    ReplacementSpoils(EncodeAll(y), c);
    hide DecodeLastRune, EncodeAll, Encode, Spoilt, Kept;
    Shorter(p, EncodeAll(x), t);
  }

  lemma {:induction false} Shorter(p: seq<byte>, e: seq<byte>, t: seq<byte>)
    requires |e| + |t| <= |p| && p[..|e| + |t|] == e + t
    ensures p[..|e|] == e
  {
    assert p[..|e|] == p[..|e| + |t|][..|e|];
  }

  lemma {:induction false} CutEnds(p: seq<byte>, w: string, x: string, t: seq<byte>)
    requires Cutting(p, w, x, t, |EncodeAll(x)|) && (x == "" || x[|x| - 1] as int != RUNE_ERROR)
    ensures |EncodeAll(x)| <= |p| && x == Kept(w)
    ensures var (r, size) := DecodeLastRune(p[..|EncodeAll(x)|]); size == 0 || r != RUNE_ERROR
  {
    Shorter(p, EncodeAll(x), t);
    hide DecodeLastRune, EncodeAll, Encode, Spoilt;
    if x == "" {
      EmptyText();
    } else {
      LastOf(x);
      LastEncoded(EncodeAll(x[..|x| - 1]), x[|x| - 1]);
    }
  }

  lemma {:induction false} EmptyText()
    ensures EncodeAll("") == [] && DecodeLastRune([]).1 == 0
  {
  }

  /** Erroneous endings are cut off byte by byte, and U+FFFD with them. */
  method TrimErrors(p: seq<byte>, ghost w: string, ghost tail: seq<byte>) returns (n: nat)
    requires p == EncodeAll(w) + tail && Spoilt(EncodeAll(w), tail)
    ensures n == |EncodeAll(Kept(w))| <= |p|
  {
    n := |p|;
    ghost var x, t := w, tail;
    assert Cutting(p, w, x, t, n);
    hide DecodeLastRune, EncodeAll, Encode, Kept, Cutting;
    while true
      invariant |EncodeAll(x)| <= n <= |p| && Cutting(p, w, x, t, n)
      decreases n
    {
      var (r, size) := DecodeLastRune(p[..n]);
      if n == |EncodeAll(x)| {
        if x != "" && x[|x| - 1] as int == RUNE_ERROR {
          CutChar(p, w, x, t);
          x, t := x[..|x| - 1], Encode(x[|x| - 1]);
        } else {
          CutEnds(p, w, x, t);
        }
      }
      if n > |EncodeAll(x)| {
        CutMore(p, w, x, t, n);
      }
      if size == 0 || r != RUNE_ERROR {
        break;
      }
      n := n - 1;
    }
  }

  function RuneLen16(r: int): nat { if r < 0x10000 then 1 else 2 }

  /** Code units are counted character by character. */
  method CountUnits(p: seq<byte>, ghost w: string) returns (units: nat)
    requires p == EncodeAll(w)
    ensures units == UnitsOf(w)
  {
    units := 0;
    var i := 0;
    ghost var m := 0;
    while i < |p|
      invariant m <= |w| && i == |EncodeAll(w[..m])| <= |p| && units == UnitsOf(w[..m])
      invariant p[i..] == EncodeAll(w[m..])
      decreases |p| - i
    {
      assert w[m..] != "";
      var (r, size) := DecodeRune(p[i..]);
      CountStep(p, w, m, i);
      i := i + size;
      units := units + RuneLen16(r);
      m := m + 1;
    }
    CountDone(w, m);
  }

  lemma {:induction false} CountStep(p: seq<byte>, w: string, m: nat, i: nat)
    requires m < |w| && i == |EncodeAll(w[..m])| <= |p| && p[i..] == EncodeAll(w[m..])
    ensures DecodeRune(p[i..]) == (w[m] as int, |Encode(w[m])|)
    ensures var k := i + |Encode(w[m])|;
            k == |EncodeAll(w[..m + 1])| <= |p| && p[k..] == EncodeAll(w[m + 1..])
              && UnitsOf(w[..m + 1]) == UnitsOf(w[..m]) + Units(w[m])
  {
    hide Encode, DecodeRune;
    assert w[m..][1..] == w[m + 1..];
    DecodeEncoded(w[m], EncodeAll(w[m + 1..]));
    assert w[..m + 1] == w[..m] + [w[m]];
    EncodeConcat(w[..m], [w[m]]);
    assert [w[m]][1..] == "";
    assert EncodeAll([w[m]]) == Encode(w[m]) + [];
    var k := i + |Encode(w[m])|;
    assert p[k..] == p[i..][|Encode(w[m])|..];
  }

  lemma {:induction false} CountDone(w: string, m: nat)
    requires m <= |w| && EncodeAll(w[m..]) == []
    ensures w[..m] == w
  {
  }

  // ----- the reader -----

  /** Of the fetched bytes, some were given, some were lost, and `held` is still to be given. */
  ghost predicate Accounted(bytes: seq<byte>, fetched: nat, given: seq<byte>, lost: nat, held: seq<byte>) {
    && |given| + lost + |held| == fetched <= |bytes|
    && held == bytes[fetched - |held|..fetched]
    && (lost == 0 ==> given == bytes[..|given|])
  }

  lemma {:induction false} Give(bytes: seq<byte>, fetched: nat, given: seq<byte>, lost: nat, held: seq<byte>, n: nat)
    requires Accounted(bytes, fetched, given, lost, held) && n <= |held|
    ensures Accounted(bytes, fetched, given + held[..n], lost, held[n..])
  {
  }

  lemma {:induction false} Fetch(bytes: seq<byte>, fetched: nat, given: seq<byte>, lost: nat, held: seq<byte>)
    requires Accounted(bytes, fetched, given, lost, []) && fetched + |held| <= |bytes|
    requires held == bytes[fetched..fetched + |held|]
    ensures Accounted(bytes, fetched + |held|, given, lost, held)
  {
  }

  lemma {:induction false} Lose(bytes: seq<byte>, fetched: nat, given: seq<byte>, lost: nat, held: seq<byte>)
    requires Accounted(bytes, fetched, given, lost, held)
    ensures Accounted(bytes, fetched, given, lost + |held|, [])
  {
  }

  /** What was given is all there is exactly if all was fetched and nothing was lost. */
  lemma {:induction false} All(bytes: seq<byte>, fetched: nat, given: seq<byte>, lost: nat)
    requires Accounted(bytes, fetched, given, lost, [])
    ensures given == bytes <==> lost == 0 && fetched == |bytes|
  {
  }

  /** The front of src[lo..hi] that fits goes to `p`. */
  method Copy(p: array<byte>, src: array<byte>, lo: nat, hi: nat) returns (n: nat)
    requires p != src && lo <= hi <= src.Length
    modifies p
    ensures n == (if p.Length < hi - lo then p.Length else hi - lo) && p[..n] == src[lo..hi][..n]
  {
    n := if p.Length < hi - lo then p.Length else hi - lo;
    forall i | 0 <= i < n {
      p[i] := src[lo + i];
    }
  }

  class Reader {
    const lob: Lob
    const nativeChunk: nat

    var buf: array?<byte>
    var bufR: nat
    var bufW: nat
    var offset: nat
    var sizePlusOne: nat
    var chunkSize: nat
    var finished: bool
    var open: bool

    /** Bytes and characters taken from the LOB so far, whether reading stopped
        because a character did not fit, what the callers have been given, and
        how many buffered bytes were overwritten unread. */
    ghost var fetched: nat
    ghost var taken: nat
    ghost var starved: bool
    ghost var given: seq<byte>
    ghost var lost: nat

    /** The position in the LOB. */
    ghost predicate Placed()
      reads `fetched, `offset, `taken, `sizePlusOne, `finished, `open, `starved
    {
      && fetched <= |lob.Bytes()|
      && (lob.Blob? ==> offset == fetched)
      && (lob.Clob? ==>
            && taken <= |lob.text| && (taken == |lob.text| ==> Kept(lob.text) == lob.text)
            && fetched == |EncodeAll(lob.text[..taken])| && offset == UnitsOf(lob.text[..taken]))
      && (sizePlusOne == 0 || sizePlusOne == lob.Size() + 1)
      && (finished || !open ==> sizePlusOne != 0 && (fetched == |lob.Bytes()| || starved))
      && (starved ==> lob.Clob? && finished && fetched < |lob.Bytes()|)
    }

    ghost predicate Valid()
      reads this, buf
    {
      && Placed()
      && (chunkSize == 0 || chunkSize == nativeChunk)
      && bufR <= bufW && (if buf == null then bufW == 0 else buf.Length >= 8 && bufW <= buf.Length)
      && Accounted(lob.Bytes(), fetched, given, lost, if buf == null then [] else buf[bufR..bufW])
    }

    constructor (lob: Lob, chunk: nat)
      ensures Valid() && this.lob == lob && nativeChunk == chunk && given == [] && lost == 0 && !starved && taken == 0
      ensures buf == null && sizePlusOne == 0 && !finished && open
    {
      this.lob, nativeChunk := lob, chunk;
      buf, bufR, bufW, offset, sizePlusOne, chunkSize, finished, open := null, 0, 0, 0, 0, 0, false, true;
      fetched, taken, starved, given, lost := 0, 0, false, [], 0;
      new;
      assert lob.Clob? ==> lob.text[..0] == "";
    }

    /** Whether reading into a buffer of this size asks the library. */
    ghost predicate Asks(len: nat)
      reads `finished, `open, `offset
    {
      !finished && open && len >= 1 && (lob.Clob? ==> len >= 4) && (lob.Blob? ==> offset < |lob.content|)
    }

    /** Nothing is left of the library's answer although there is more text. */
    ghost predicate Starves(len: nat, counts: Counts)
      reads `finished, `open, `offset, `taken
    {
      Asks(len) && lob.Clob? && taken < |lob.text| && Step(lob.text, taken, len, counts) == 0
    }

    /** Not even the next character fits. */
    ghost predicate TooLarge(len: nat)
      reads `finished, `open, `offset, `taken
    {
      Asks(len) && lob.Clob? && taken < |lob.text| && len / 4 < Units(lob.text[taken])
    }

    /** The part of `read` after the library's answer for a BLOB. */
    method TakeBytes(p: array<byte>, reply: seq<byte>) returns (n: nat)
      requires Placed() && !starved && lob.Blob? && LegalBytes(lob.content, offset, p.Length, reply)
      modifies this`offset, this`fetched, p
      ensures Placed() && n == |reply| && fetched == old(fetched) + n && p[..n] == lob.Bytes()[old(fetched)..fetched]
    {
      n := |reply|;
      forall i | 0 <= i < n {
        p[i] := reply[i];
      }
      offset := offset + n;
      fetched := fetched + n;
      assert p[..n] == reply;
    }

    /** The same for a CLOB: the ending is trimmed, the code units are counted. */
    method TakeText(p: array<byte>, reply: seq<byte>, ghost j: nat) returns (n: nat)
      requires Placed() && !starved && lob.Clob? && LegalText(lob.text, taken, p.Length / 4, reply, j)
      modifies this`offset, this`fetched, this`taken, p
      ensures Placed() && taken == old(taken) + |Kept(lob.text[old(taken)..old(taken) + j])|
      ensures fetched == old(fetched) + n && (n == 0 <==> taken == old(taken))
      ensures n <= p.Length && p[..n] == lob.Bytes()[old(fetched)..fetched]
    {
      hide EncodeAll, UnitsOf, Encode, Units, Spoilt, Kept;
      n := |reply|;
      ReplyFits(lob.text, taken, p.Length, reply, j);
      forall i | 0 <= i < n {
        p[i] := reply[i];
      }
      assert p[..n] == reply;
      var units;
      n, units := Whole(p[..n], lob.text, taken, p.Length / 4, j);
      ghost var k := Kept(lob.text[taken..taken + j]);
      KeptEnd(lob.text, taken, j);
      Advance(lob.text, taken, |k|);
      assert p[..n] == reply[..n];
      offset := offset + units;
      taken := taken + |k|;
      fetched := fetched + n;
    }

    /** One answer of the library, taken into `p`. */
    method Ask(p: array<byte>, library: Library, ghost counts: Counts) returns (n: nat)
      requires Placed() && !starved && Asks(p.Length) && Answers(lob, library, counts)
      modifies this`offset, this`fetched, this`taken, p
      ensures Placed() && n <= p.Length && fetched == old(fetched) + n && p[..n] == lob.Bytes()[old(fetched)..fetched]
      ensures lob.Blob? ==> n == |library(old(offset), p.Length)| > 0
      ensures lob.Clob? ==> (old(Starves(p.Length, counts)) <==> n == 0 && fetched < |lob.Bytes()|)
      ensures lob.Clear() ==> old(Starves(p.Length, counts)) == old(TooLarge(p.Length))
      ensures lob.Clob? ==> taken == old(taken) + Step(lob.text, old(taken), p.Length, counts)
    {
      hide EncodeAll, UnitsOf, Encode, Units, Spoilt, Kept, Plain;
      var reply := library(offset, p.Length);
      if lob.Blob? {
        n := TakeBytes(p, reply);
      } else {
        ghost var j := counts(taken, p.Length);
        NextFits(lob.text, taken, p.Length / 4, reply, j);
        Advance(lob.text, taken, 0);
        AllTaken(lob.text, taken, j);
        n := TakeText(p, reply, j);
      }
    }

    /** From character `from` on the text was read as far as here, by buffers of
        this size, and there is no going on from where reading has starved. */
    ghost predicate Walked(from: nat, len: nat, counts: Counts)
      reads `taken, `starved
    {
      lob.Clob? ==>
        && from <= |lob.text| && taken <= |lob.text|
        && Walk(lob.text, from, len, counts) == Walk(lob.text, taken, len, counts)
        && (starved ==> taken < |lob.text| && Step(lob.text, taken, len, counts) == 0)
        && (len < 4 ==> taken == from && !starved)
    }

    lemma {:induction false} WalkedNone(len: nat, counts: Counts)
      requires Placed() && !starved
      ensures Walked(taken, len, counts)
    {
    }

    lemma {:induction false} WalkedOne(from: nat, len: nat, counts: Counts)
      requires lob.Clob? ==> len >= 4 && from <= |lob.text| && taken == from + Step(lob.text, from, len, counts)
      requires lob.Clob? && starved ==> from < |lob.text| && taken == from
      ensures Walked(from, len, counts)
    {
      hide Step;
    }

    lemma {:induction false} WalkedOn(from: nat, mid: nat, len: nat, counts: Counts)
      requires Walked(mid, len, counts)
      requires lob.Clob? ==> from <= |lob.text| && mid <= |lob.text|
      requires lob.Clob? ==> Walk(lob.text, from, len, counts) == Walk(lob.text, mid, len, counts)
      requires lob.Clob? && len < 4 ==> from == mid
      ensures Walked(from, len, counts)
    {
    }

    lemma {:induction false} WalkedIs(from: nat, len: nat, counts: Counts)
      requires Walked(from, len, counts) && lob.Clob?
      ensures from <= |lob.text| && taken <= |lob.text|
      ensures Walk(lob.text, from, len, counts) == Walk(lob.text, taken, len, counts)
      ensures starved ==> Walk(lob.text, from, len, counts) == taken < |lob.text|
      ensures taken == |lob.text| ==> Walk(lob.text, from, len, counts) == |lob.text|
      ensures len < 4 ==> taken == from && !starved
    {
    }

    /** `read`: one answer of the library, taken into `p`.  Reading ends early
        exactly when nothing is left of an answer, which without U+FFFD is when
        the next character does not fit. */
    method ReadLob(p: array<byte>, library: Library, ghost counts: Counts) returns (n: nat, status: Status)
      requires Placed() && Answers(lob, library, counts)
      modifies this`offset, this`sizePlusOne, this`finished, this`open, this`fetched, this`taken, this`starved, p
      ensures Placed()
      ensures n <= p.Length && fetched == old(fetched) + n <= |lob.Bytes()|
              && p[..n] == lob.Bytes()[old(fetched)..fetched]
      ensures starved <==> old(starved) || old(Starves(p.Length, counts))
      ensures lob.Clear() ==> (starved <==> old(starved) || old(TooLarge(p.Length)))
      ensures status == Good ==> n > 0 && !starved
      ensures starved ==> fetched < |lob.Bytes()|
      ensures status == EndOfFile <==> status != ShortBuffer && (n == 0 || (lob.Blob? && fetched == |lob.Bytes()|))
      ensures status == EndOfFile ==> fetched == |lob.Bytes()| || starved
      ensures status == ShortBuffer <==> old(open && !finished && (p.Length < 1 || (lob.Clob? && p.Length < 4)))
      ensures status == ShortBuffer ==> n == 0
      ensures old(sizePlusOne) != 0 ==> sizePlusOne == old(sizePlusOne)
      ensures !old(starved) ==> Walked(old(taken), p.Length, counts)
      ensures lob.Blob? && old(Asks(p.Length)) ==> n == |library(old(offset), p.Length)|
    {
      hide EncodeAll, UnitsOf, Encode, Units, Spoilt, Kept, Plain, LegalText, LegalBytes, Step, Walked;
      if !starved {
        WalkedNone(p.Length, counts);
      }
      n, status := 0, EndOfFile;
      if finished || !open {
        return;
      }
      if p.Length < 1 || (lob.Clob? && p.Length < 4) {
        status := ShortBuffer;
        return;
      }
      if sizePlusOne == 0 {
        sizePlusOne := lob.Size() + 1;
      }
      if lob.Blob? && offset + 1 >= sizePlusOne {
        return;
      }
      ghost var starves := Starves(p.Length, counts);
      n := Ask(p, library, counts);
      status := Good;
      if n == 0 || (lob.Blob? && offset + 1 >= sizePlusOne) {
        starved := starves;
        open := false;
        finished := true;
        status := EndOfFile;
      }
      WalkedOne(old(taken), p.Length, counts);
    }

    /** Whether Read bypasses the buffer. */
    ghost predicate Direct(len: nat)
      reads this
    {
      buf == null && (len >= nativeChunk || (sizePlusOne != 0 && len + 1 >= sizePlusOne))
    }

    /** How large the buffer is that the library is asked to fill. */
    ghost function AskLen(len: nat): nat
      reads this, buf
    {
      if Direct(len) then len else if buf == null then BufferSize(len, nativeChunk) else buf.Length
    }

    /** Buffered bytes go out first. */
    method TakeBuffered(p: array<byte>) returns (n: nat)
      requires Valid() && buf != null && p != buf
      modifies this`bufR, this`bufW, this`given, p
      ensures Valid() && (n > 0 <==> old(bufR < bufW) && p.Length > 0)
      ensures n == 0 ==> bufW - bufR == old(bufW - bufR)
      ensures n <= p.Length && given == old(given) + p[..n]
    {
      hide EncodeAll, UnitsOf, Placed, Plain, Lob.Bytes, Answers, Accounted;
      n := 0;
      if bufR < bufW {
        ghost var held := buf[bufR..bufW];
        n := Copy(p, buf, bufR, bufW);
        Give(lob.Bytes(), fetched, given, lost, held, n);
        given := given + p[..n];
        bufR := bufR + n;
        assert buf[bufR..bufW] == held[n..];
      }
      if bufR == bufW {
        assert buf[bufR..bufW] == buf[0..0];
        bufR, bufW := 0, 0;
      }
    }

    /** The front of what was filled in goes out. */
    method Deliver(p: array<byte>, filled: nat) returns (n: nat)
      requires Placed() && buf != null && p != buf && filled <= buf.Length
      requires Accounted(lob.Bytes(), fetched, given, lost, buf[..filled])
      modifies this`bufR, this`bufW, this`given, p
      ensures n == bufR <= bufW == filled && n == (if p.Length < filled then p.Length else filled)
      ensures Placed() && given == old(given) + p[..n]
      ensures Accounted(lob.Bytes(), fetched, given, lost, buf[bufR..bufW])
    {
      hide EncodeAll, UnitsOf, Placed, Lob.Bytes, Accounted;
      ghost var held := buf[..filled];
      bufW := filled;
      n := Copy(p, buf, 0, bufW);
      bufR := n;
      Give(lob.Bytes(), fetched, given, lost, held, n);
      assert p[..n] == held[..n];
      given := given + p[..n];
      assert buf[bufR..bufW] == held[n..];
    }

    /** The buffer is filled, and its front goes out. */
    method Refill(p: array<byte>, library: Library, ghost counts: Counts) returns (n: nat, status: Status)
      requires Placed() && (chunkSize == 0 || chunkSize == nativeChunk) && buf != null && buf.Length >= 8 && p != buf
      requires Accounted(lob.Bytes(), fetched, given, lost, [])
      requires Answers(lob, library, counts)
      modifies this`bufR, this`bufW, this`offset, this`sizePlusOne, this`finished, this`open
      modifies this`fetched, this`taken, this`starved, this`given, buf, p
      ensures Valid()
      ensures n <= p.Length && given == old(given) + p[..n]
      ensures (lob.Clear() || status == Good ==> starved == old(starved)) && status != ShortBuffer
      ensures status == Good ==> n > 0 || p.Length == 0
      ensures status == EndOfFile ==> (given == lob.Bytes() <==> lost == 0 && !starved)
      ensures !old(starved) ==> Walked(old(taken), buf.Length, counts)
      ensures lob.Blob? && old(Asks(buf.Length)) ==>
              bufW == |library(old(offset), buf.Length)| && bufR == n == (if p.Length < bufW then p.Length else bufW)
    {
      hide EncodeAll, UnitsOf, Placed, Plain, Lob.Bytes, Answers, Accounted, Starves, Walked, Lob.Clear;
      var filled;
      filled, status := ReadLob(buf, library, counts);
      Fetch(lob.Bytes(), old(fetched), given, lost, buf[..filled]);
      n := Deliver(p, filled);
      if status == EndOfFile && bufW != bufR {
        status := Good;
      }
      if status == EndOfFile {
        assert buf[bufR..bufW] == [];
        All(lob.Bytes(), fetched, given, lost);
      }
    }

    /** No buffer in between. */
    method ReadDirect(p: array<byte>, library: Library, ghost counts: Counts) returns (n: nat, status: Status)
      requires Valid() && buf == null && Answers(lob, library, counts)
      modifies this`offset, this`sizePlusOne, this`finished, this`open, this`fetched, this`taken, this`starved
      modifies this`given, p
      ensures Valid()
      ensures n <= p.Length && given == old(given) + p[..n]
      ensures (old(starved) ==> starved) && (lob.Clear() ==> (starved <==> old(starved) || old(TooLarge(p.Length))))
      ensures status == Good ==> n > 0 && !starved
      ensures status == EndOfFile ==> (given == lob.Bytes() <==> lost == 0 && !starved)
      ensures status == ShortBuffer ==> p.Length < 4 && (p.Length < 1 || lob.Clob?)
      ensures old(sizePlusOne) != 0 ==> sizePlusOne == old(sizePlusOne)
      ensures !old(starved) ==> Walked(old(taken), p.Length, counts)
    {
      hide EncodeAll, UnitsOf, Placed, Plain, Lob.Bytes, Answers, Accounted, TooLarge, Starves, Asks, Walked, Lob.Clear;
      n, status := ReadLob(p, library, counts);
      ghost var held := p[..n];
      Fetch(lob.Bytes(), old(fetched), given, lost, held);
      Give(lob.Bytes(), fetched, given, lost, held, n);
      assert held[..n] == held && held[n..] == [];
      given := given + held;
      All(lob.Bytes(), fetched, given, lost);
    }

    /** Out of the buffer, which is filled again when nothing came out. */
    method ReadBuffered(p: array<byte>, library: Library, ghost counts: Counts) returns (n: nat, status: Status)
      requires Valid() && buf != null && p != buf && Answers(lob, library, counts)
      modifies this`bufR, this`bufW, this`offset, this`sizePlusOne, this`finished, this`open
      modifies this`fetched, this`taken, this`starved, this`given, this`lost, buf, p
      ensures Valid() && n <= p.Length && given == old(given) + p[..n]
      ensures lost == old(lost) + if p.Length == 0 then old(bufW - bufR) else 0
      ensures (lob.Clear() || status == Good ==> starved == old(starved)) && status != ShortBuffer
      ensures status == Good ==> n > 0 || p.Length == 0
      ensures status == EndOfFile ==> (given == lob.Bytes() <==> lost == 0 && !starved)
      ensures !old(starved) ==> Walked(old(taken), buf.Length, counts)
      ensures lob.Blob? && old(bufW == 0 && Asks(buf.Length)) ==>
              bufW == |library(old(offset), buf.Length)| && bufR == n == (if p.Length < bufW then p.Length else bufW)
    {
      hide EncodeAll, UnitsOf, Placed, Plain, Lob.Bytes, Answers, Accounted, Lob.Clear, Walked;
      if !starved {
        WalkedNone(buf.Length, counts);
      }
      if bufW != 0 {
        n := TakeBuffered(p);
        if n != 0 {
          return n, Good;
        }
      }
      Lose(lob.Bytes(), fetched, given, lost, buf[bufR..bufW]);
      lost := lost + (bufW - bufR);
      n, status := Refill(p, library, counts);
    }

    /** `Read`.  A destination of no length overwrites what is buffered. */
    method Read(p: array<byte>, library: Library, ghost counts: Counts) returns (n: nat, status: Status)
      requires Valid() && p != buf && Answers(lob, library, counts)
      modifies this, buf, p
      ensures Valid() && (buf == old(buf) || fresh(buf))
      ensures n <= p.Length && given == old(given) + p[..n]
      ensures lost == old(lost) + if p.Length == 0 then old(bufW - bufR) else 0
      ensures lob.Clear() ==> (starved <==> old(starved) || old(Direct(p.Length) && TooLarge(p.Length)))
      ensures status == Good ==> (n > 0 || p.Length == 0) && starved == old(starved)
      ensures status == EndOfFile ==> (given == lob.Bytes() <==> lost == 0 && !starved)
      ensures status == ShortBuffer ==> old(Direct(p.Length)) && p.Length < 4 && (p.Length < 1 || lob.Clob?)
      ensures Direct(p.Length) == old(Direct(p.Length)) && AskLen(p.Length) == old(AskLen(p.Length))
      ensures !old(starved) ==> Walked(old(taken), AskLen(p.Length), counts)
      ensures lob.Blob? && old(buf == null && !Direct(p.Length) && Asks(AskLen(p.Length))) ==>
              && bufW == |library(old(offset), old(AskLen(p.Length)))|
              && bufR == n == (if p.Length < bufW then p.Length else bufW)
    {
      hide EncodeAll, UnitsOf, Placed, Plain, Lob.Bytes, Answers, Accounted, TooLarge, BufferSize, Asks, Walked,
           Lob.Clear;
      if buf == null {
        if chunkSize == 0 {
          chunkSize := nativeChunk;
        }
        if p.Length >= chunkSize || (sizePlusOne != 0 && p.Length + 1 >= sizePlusOne) {
          n, status := ReadDirect(p, library, counts);
          return;
        }
        buf := new byte[BufferSize(p.Length, chunkSize)];
        bufR, bufW := 0, 0;
        assert buf[bufR..bufW] == [];
      }
      n, status := ReadBuffered(p, library, counts);
    }

    lemma {:induction false} Within()
      requires Valid()
      ensures |given| <= |lob.Bytes()| && (lost == 0 ==> given <= lob.Bytes()) && (lob.Clob? ==> taken <= |lob.text|)
      ensures lob.Clob? && given == lob.Bytes() ==> taken == |lob.text| && Kept(lob.text) == lob.text
    {
      hide EncodeAll, UnitsOf, Plain, Kept;
      if lob.Clob? {
        Advance(lob.text, taken, 0);
      }
    }

    /** Reading to the end, `size` bytes at a time.  A BLOB arrives whole, and a
        text exactly if the walk along the library's answers gets to its end: a
        text that ends in U+FFFD never does, and with a library none of whose
        answers is U+FFFD only every text does, unless fewer than eight bytes
        are read without a buffer and a character of two code units is among
        them. */
    method ReadAll(size: nat, library: Library, ghost counts: Counts) returns (out: seq<byte>, status: Status)
      requires Valid() && given == [] && lost == 0 && !starved && size > 0 && Answers(lob, library, counts)
      modifies this, buf
      ensures out == given <= lob.Bytes()
      ensures status == EndOfFile || (status == ShortBuffer && lob.Clob? && size < 4 && old(Direct(size)))
      ensures lob.Blob? ==> out == lob.Bytes()
      ensures lob.Clob? ==> old(taken) <= |lob.text|
      ensures status == EndOfFile && lob.Clob? ==>
              (out == lob.Bytes() <==> Walk(lob.text, old(taken), old(AskLen(size)), counts) == |lob.text|)
      ensures lob.Clob? && Kept(lob.text) != lob.text ==> out != lob.Bytes()
      ensures status == EndOfFile && Spoken(lob, counts) ==>
              (out == lob.Bytes() <==>
               !(lob.Clob? && size < 8 && old(Direct(size)) && !SingleUnits(lob.text[old(taken)..])))
    {
      hide EncodeAll, UnitsOf, Placed, Plain, Lob.Bytes, BufferSize, Accounted, Answers, SingleUnits, Kept,
           Lob.Clear, TooLarge, Walked, AskLen, Walk, Spoken;
      Within();
      ghost var len := AskLen(size);
      AskLenIs(size);
      WalkedNone(len, counts);
      out, status := [], Good;
      var p := new byte[size];
      while status == Good
        invariant Valid() && lost == 0 && out == given <= lob.Bytes() && p != buf && (buf == old(buf) || fresh(buf))
        invariant Direct(size) == old(Direct(size)) && AskLen(size) == len && Walked(old(taken), len, counts)
        invariant status == ShortBuffer ==> size < 4 && lob.Clob? && Direct(size)
        invariant status == EndOfFile ==> (out == lob.Bytes() <==> !starved)
        invariant status == Good ==> !starved
        decreases |lob.Bytes()| - |out|, status == Good
      {
        var n;
        ghost var before := taken;
        if lob.Clob? {
          WalkedIs(old(taken), len, counts);
        }
        n, status := Read(p, library, counts);
        out := out + p[..n];
        Within();
        WalkedOn(old(taken), before, len, counts);
      }
      Within();
      if lob.Clob? {
        WalkedIs(old(taken), len, counts);
        if status == EndOfFile {
          WalkSpoken(lob, old(taken), len, library, counts);
        }
      } else {
        NeverStarved();
      }
    }

    lemma {:induction false} NeverStarved()
      requires Valid() && lob.Blob?
      ensures !starved
    {
    }

    /** A buffer has room for every character. */
    lemma {:induction false} AskLenIs(size: nat)
      requires Valid()
      ensures AskLen(size) < 8 <==> Direct(size) && size < 8
      ensures Direct(size) ==> AskLen(size) == size
    {
    }

    /** `Size`: the size in the library's terms, which for a CLOB is not one in bytes. */
    method Size() returns (size: nat, ok: bool)
      requires Valid()
      modifies this`sizePlusOne
      ensures Valid() && size == lob.Size() && ok == lob.Blob? && sizePlusOne == size + 1
    {
      if sizePlusOne == 0 {
        sizePlusOne := lob.Size() + 1;
      }
      size, ok := sizePlusOne - 1, lob.Blob?;
    }
  }

  /** Whole chunks, more than is asked for. */
  function BufferSize(len: nat, cs: nat): (size: nat)
    requires cs > 0
    ensures size > len && size >= 8
  {
    Multiple(Max(len, 0x10_0000 - cs), cs);
    (Max(len, 0x10_0000 - cs) / cs + 1) * cs
  }

  lemma {:induction false} Multiple(x: nat, cs: nat)
    requires cs > 0
    ensures (x / cs + 1) * cs > x && (x / cs + 1) * cs >= cs
  {
    assert x == x / cs * cs + x % cs;
  }

  ghost predicate SingleUnits(w: string) { forall i :: 0 <= i < |w| ==> Units(w[i]) == 1 }

  lemma {:induction false} OneUnit(w: string)
    requires UnitsOf(w) <= 1
    ensures SingleUnits(w)
  {
    if w != "" {
      BytesPerUnit(w[1..]);
      assert UnitsOf(w) == Units(w[0]) + UnitsOf(w[1..]);
    }
  }

  /** Of the next `j` characters all are U+FFFD. */
  ghost predicate NothingKept(text: string, taken: nat, j: nat) {
    taken + j <= |text| && Kept(text[taken..taken + j]) == ""
  }

  /** The end of a text is reached only past a last character that is kept. */
  lemma {:induction false} KeptEnd(text: string, k: nat, j: nat)
    requires k + j <= |text| && (k == |text| ==> Kept(text) == text)
    ensures var w := Kept(text[k..k + j]);
            k + |w| <= |text| && text[k..k + |w|] == w && (k + |w| == |text| ==> Kept(text) == text)
  {
    var w := text[k..k + j];
    if k + |Kept(w)| == |text| && j > 0 {
      assert w[|w| - 1] == text[|text| - 1];
    }
  }

  lemma {:induction false} AllTaken(text: string, k: nat, j: nat)
    requires k + j <= |text|
    ensures k == |text| ==> Kept(text[k..k + j]) == ""
    ensures NothingKept(text, k, j) <==> |Kept(text[k..k + j])| == 0
  {
  }

  /** With a library none of whose answers is U+FFFD only the walk stops before
      the end exactly if there is room for one code unit only and a character
      needs two. */
  lemma {:induction false} WalkSpoken(lob: Lob, k: nat, len: nat, library: Library, counts: Counts)
    requires lob.Clob? && k <= |lob.text| && Answers(lob, library, counts) && (len >= 4 || k == |lob.text|)
    ensures Spoken(lob, counts) ==>
            (Walk(lob.text, k, len, counts) == |lob.text| <==> len >= 8 || SingleUnits(lob.text[k..]))
    decreases |lob.text| - k
  {
    hide LegalText, Step, Kept, UnitsOf, SingleUnits;
    var text := lob.text;
    if k == |text| {
      NoCharacters(text[k..]);
      WalkEnd(text, len, counts);
    } else if Spoken(lob, counts) {
      var n := Step(text, k, len, counts);
      StepSpoken(lob, k, len, library, counts, n);
      if n > 0 {
        WalkSpoken(lob, k + n, len, library, counts);
      }
    }
  }

  lemma {:induction false} NoCharacters(w: string)
    ensures w == "" ==> SingleUnits(w)
  {
  }

  lemma {:induction false} WalkEnd(text: string, len: nat, counts: Counts)
    ensures Walk(text, |text|, len, counts) == |text|
  {
  }

  /** One answer: characters come unless the first of them does not fit, and
      where one code unit fits they are characters of one. */
  lemma {:induction false} StepSpoken(lob: Lob, k: nat, len: nat, library: Library, counts: Counts, n: nat)
    requires lob.Clob? && k < |lob.text| && Answers(lob, library, counts) && Spoken(lob, counts) && len >= 4
    requires n == Step(lob.text, k, len, counts)
    ensures k + n <= |lob.text|
    ensures n == 0 ==> len < 8 && !SingleUnits(lob.text[k..])
    ensures n > 0 && len < 8 ==> (SingleUnits(lob.text[k..]) <==> SingleUnits(lob.text[k + n..]))
  {
    hide Kept, UnitsOf;
    var text, j := lob.text, counts(k, len);
    assert LegalText(text, k, len / 4, library(UnitsOf(text[..k]), len), j);
    NextFits(text, k, len / 4, library(UnitsOf(text[..k]), len), j);
    hide LegalText, Answers;
    SplitUnits(text, k, k + n);
  }

  lemma {:induction false} SplitUnits(text: string, k: nat, m: nat)
    requires k <= m <= |text|
    ensures SingleUnits(text[k..]) <==> SingleUnits(text[k..m]) && SingleUnits(text[m..])
    ensures k < |text| && Units(text[k]) == 2 ==> !SingleUnits(text[k..])
  {
    assert text[k..] == text[k..m] + text[m..];
    assert forall i :: 0 <= i < m - k ==> text[k..][i] == text[k..m][i];
    assert forall i :: 0 <= i < |text| - m ==> text[k..][m - k + i] == text[m..][i];
  }

  /** No U+FFFD at all is one way to have no such answers. */
  lemma {:induction false} ClearIsSpoken(lob: Lob, library: Library, counts: Counts)
    requires lob.Clear() && Answers(lob, library, counts)
    ensures Spoken(lob, counts)
  {
    if lob.Clob? {
      forall k: nat, len: nat | k < |lob.text| && len >= 4 && counts(k, len) > 0
        ensures Step(lob.text, k, len, counts) > 0
      {
        assert LegalText(lob.text, k, len / 4, library(UnitsOf(lob.text[..k]), len), counts(k, len));
        PlainKept(lob.text[k..k + counts(k, len)]);
      }
    }
  }

  /** Characters come as long as they fit. */
  lemma {:induction false} NextFits(text: string, taken: nat, amount: nat, reply: seq<byte>, j: nat)
    requires LegalText(text, taken, amount, reply, j)
    ensures taken < |text| ==> (j > 0 <==> Units(text[taken]) <= amount) && Units(text[taken]) <= 2
    ensures taken < |text| && Plain(text) ==> (NothingKept(text, taken, j) <==> amount < Units(text[taken]))
    ensures var k := |Kept(text[taken..taken + j])|;
            k <= j && (amount <= 1 ==> SingleUnits(text[taken..taken + k]))
  {
    var w := text[taken..taken + j];
    assert text[taken..taken + |Kept(w)|] == w[..|Kept(w)|];
    if amount <= 1 {
      OneUnit(text[taken..taken + j]);
    }
    if j > 0 {
      assert text[taken..taken + j][0] == text[taken];
    }
    if Plain(text) {
      PlainKept(text[taken..taken + j]);
    }
  }

  /** How many bytes of an answer are whole characters, and how many code units these are. */
  method Whole(reply: seq<byte>, ghost text: string, ghost taken: nat, ghost amount: nat, ghost j: nat)
    returns (n: nat, units: nat)
    requires LegalText(text, taken, amount, reply, j)
    ensures var k := Kept(text[taken..taken + j]);
            n == |EncodeAll(k)| <= |reply| && reply[..n] == EncodeAll(k) && units == UnitsOf(k) && (n == 0 <==> k == "")
  {
    hide UnitsOf, Spoilt, DecodeLastRune, Kept;
    ghost var w := text[taken..taken + j];
    ghost var e := EncodeAll(w);
    assert reply == e + reply[|e|..];
    n := TrimErrors(reply, w, reply[|e|..]);
    ghost var k := Kept(w);
    assert w == k + w[|k|..];
    EncodeConcat(k, w[|k|..]);
    assert reply[..n] == reply[..|e|][..n] == EncodeAll(k);
    units := CountUnits(reply[..n], k);
    BytesPerUnit(k);
  }

  /** The bytes and code units of a text up to a later character. */
  lemma {:induction false} Advance(text: string, k: nat, j: nat)
    requires k + j <= |text|
    ensures var w, a := text[k..k + j], |EncodeAll(text[..k])|;
            && EncodeAll(text[..k + j]) == EncodeAll(text[..k]) + EncodeAll(w)
            && UnitsOf(text[..k + j]) == UnitsOf(text[..k]) + UnitsOf(w)
            && a + |EncodeAll(w)| <= |EncodeAll(text)|
            && EncodeAll(text)[a..a + |EncodeAll(w)|] == EncodeAll(w)
            && (|EncodeAll(text[..k])| == |EncodeAll(text)| <==> k == |text|)
  {
    var w := text[k..k + j];
    assert text[..k + j] == text[..k] + w;
    EncodeConcat(text[..k], w);
    assert text == text[..k + j] + text[k + j..];
    EncodeConcat(text[..k + j], text[k + j..]);
    assert text == text[..k] + text[k..];
    EncodeConcat(text[..k], text[k..]);
    BytesPerUnit(text[k..]);
  }

  // ----- there are such libraries -----

  /** The character at which so many code units have passed. */
  function CharAt(text: string, units: nat): (k: nat)
    ensures k <= |text|
  {
    if text == "" || units == 0 then 0
    else if units < Units(text[0]) then 0
    else 1 + CharAt(text[1..], units - Units(text[0]))
  }

  lemma {:induction false} CharAtUnits(text: string, k: nat)
    requires k <= |text|
    ensures CharAt(text, UnitsOf(text[..k])) == k
  {
    if k > 0 {
      assert text[..k][0] == text[0] && text[..k][1..] == text[1..][..k - 1];
      CharAtUnits(text[1..], k - 1);
    }
  }

  /** One character at a time, if it fits. */
  function OneCount(lob: Lob): Counts {
    (k: nat, len: nat) => if lob.Clob? && k < |lob.text| && Units(lob.text[k]) <= len / 4 then 1 else 0
  }

  /** A library that gives one byte or one character at a time. */
  function OneByOne(lob: Lob): Library {
    (o: nat, len: nat) =>
      match lob
      case Blob(content) => if o < |content| then content[o..o + 1] else []
      case Clob(text) =>
        var k := CharAt(text, o);
        if k < |text| && Units(text[k]) <= len / 4 then Encode(text[k]) else []
  }

  /** For every LOB there is a library as is asked for here. */
  lemma {:induction false} LibraryExists(lob: Lob)
    ensures Answers(lob, OneByOne(lob), OneCount(lob))
  {
    match lob
    case Blob(content) =>
      forall o: nat, len: nat | o < |content| && len >= 1
        ensures LegalBytes(content, o, len, OneByOne(lob)(o, len))
      {
      }
    case Clob(text) =>
      forall k: nat, len: nat | k <= |text| && len >= 4
        ensures LegalText(text, k, len / 4, OneByOne(lob)(UnitsOf(text[..k]), len), OneCount(lob)(k, len))
      {
        CharAtUnits(text, k);
        OneLegal(text, k, len / 4, OneByOne(lob)(UnitsOf(text[..k]), len), OneCount(lob)(k, len));
      }
  }

  lemma {:induction false} OneLegal(text: string, k: nat, amount: nat, reply: seq<byte>, j: nat)
    requires k <= |text| && j == (if k < |text| && Units(text[k]) <= amount then 1 else 0)
    requires reply == if j == 1 then Encode(text[k]) else []
    ensures LegalText(text, k, amount, reply, j)
  {
  }

  /** One character beyond the basic plane, of which the size was asked first,
      read four bytes at a time: the reader reports the end and has given
      nothing. */
  method StarvedExample(library: Library, ghost counts: Counts) returns (out: seq<byte>, status: Status)
    requires Answers(Clob("\U{1F600}"), library, counts)
    ensures status == EndOfFile && out != EncodeAll("\U{1F600}")
  {
    var r := new Reader(Clob("\U{1F600}"), 8192);
    var size, ok := r.Size();
    assert size == 2;
    assert r.Direct(4);
    ClearIsSpoken(r.lob, library, counts);
    out, status := r.ReadAll(4, library, counts);
    assert "\U{1F600}"[0..] == "\U{1F600}";
    assert Units("\U{1F600}"[0]) == 2;
  }

  /** Three bytes in one answer: one is given, a destination of no length is
      offered, and the other two are lost. */
  method LostExample(library: Library, ghost counts: Counts) returns (r: Reader)
    requires Answers(Blob([7, 8, 9]), library, counts)
    requires forall len: nat {:trigger library(0, len)} :: len >= 3 ==> library(0, len) == [7, 8, 9]
    ensures r.Valid() && r.given == [7] && r.lost == 2
  {
    r := new Reader(Blob([7, 8, 9]), 8192);
    var p := new byte[1];
    assert !r.Direct(1) && r.Asks(r.AskLen(1));
    var n, status := r.Read(p, library, counts);
    var none := new byte[0];
    n, status := r.Read(none, library, counts);
  }

  /** U+FFFD at the end of a text is cut off as an error, whatever the library
      and however large the destination: the end is reported without it. */
  method ReplacementExample(size: nat, library: Library, ghost counts: Counts) returns (out: seq<byte>, status: Status)
    requires size > 0 && Answers(Clob("a\U{FFFD}"), library, counts)
    ensures status == EndOfFile && out != EncodeAll("a\U{FFFD}")
  {
    var r := new Reader(Clob("a\U{FFFD}"), 8192);
    assert Kept("a\U{FFFD}") != "a\U{FFFD}";
    out, status := r.ReadAll(size, library, counts);
  }
}
