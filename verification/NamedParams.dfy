/** `MapToSlice` (orahlp.go): rewriting named parameters of an SQL text to
    numbered placeholders. */
module NamedParams {
  import opened Decimals

  datatype Token = Text(text: string) | Param(name: string)

  predicate IsLetter(c: char) { 'A' <= c <= 'Z' || 'a' <= c <= 'z' }

  predicate IsNameChar(c: char) { IsLetter(c) || '0' <= c <= '9' || c == '$' || c == '_' || c == '#' }

  // ----- the tokens of a text -----

  /** Behind the next newline. */
  function LineEnd(q: string, i: nat): (e: nat)
    requires i <= |q|
    ensures i <= e <= |q|
    decreases |q| - i
  {
    if i == |q| then i else if q[i] == '\n' then i + 1 else LineEnd(q, i + 1)
  }

  /** Behind the next star and slash; the star may be the one that opened the comment. */
  function BlockEnd(q: string, i: nat): (e: nat)
    requires 0 < i <= |q|
    ensures i <= e <= |q|
    decreases |q| - i
  {
    if i == |q| then i else if q[i - 1] == '*' && q[i] == '/' then i + 1 else BlockEnd(q, i + 1)
  }

  /** Behind the next quote. */
  function LiteralEnd(q: string, i: nat): (e: nat)
    requires i <= |q|
    ensures i <= e <= |q|
    decreases |q| - i
  {
    if i == |q| then i else if q[i] == '\'' then i + 1 else LiteralEnd(q, i + 1)
  }

  /** Behind the longest name that starts at `start`, scanned as far as `i`. */
  function NameEnd(q: string, start: nat, i: nat): (e: nat)
    requires start <= i <= |q|
    ensures i <= e <= |q|
    decreases |q| - i
  {
    if i < |q| && (if i == start then IsLetter(q[i]) else IsNameChar(q[i])) then NameEnd(q, start, i + 1) else i
  }

  /** Where the comment or literal that starts at `i` ends, or the next character. */
  function TextEnd(q: string, i: nat): (e: nat)
    requires i < |q|
    ensures i < e <= |q|
  {
    if q[i] == '-' && i > 0 && q[i - 1] == '-' then LineEnd(q, i + 1)
    else if q[i] == '*' && i > 0 && q[i - 1] == '/' then BlockEnd(q, i + 1)
    else if q[i] == '\'' then LiteralEnd(q, i + 1)
    else i + 1
  }

  /** A colon and the name behind it, or the colon alone. */
  function ColonToken(q: string, i: nat): Token
    requires i < |q|
  {
    var e := NameEnd(q, i + 1, i + 1);
    if e == i + 1 then Text(q[i..i + 1]) else Param(q[i + 1..e])
  }

  /** The tokens from position `i`, outside of comments and literals.  The
      character that ends a parameter is looked at again if `rescan`. */
  function Lex(q: string, i: nat, rescan: bool): seq<Token>
    requires i <= |q|
    decreases |q| - i
  {
    if i == |q| then []
    else if q[i] == ':' then
      var e := NameEnd(q, i + 1, i + 1);
      if rescan || e == |q| then [ColonToken(q, i)] + Lex(q, e, rescan)
      else [ColonToken(q, i), Text(q[e..e + 1])] + Lex(q, e + 1, rescan)
    else [Text(q[i..TextEnd(q, i)])] + Lex(q, TextEnd(q, i), rescan)
  }

  function Placeholder(n: nat): string { ":" + Chars(NatToDigits(n)) }

  /** The text with the parameters numbered from n + 1. */
  function Render(ts: seq<Token>, n: nat): string {
    if ts == [] then ""
    else match ts[0]
      case Text(s) => s + Render(ts[1..], n)
      case Param(_) => Placeholder(n + 1) + Render(ts[1..], n + 1)
  }

  /** The text with the names put back. */
  function Restore(ts: seq<Token>): string {
    if ts == [] then ""
    else (match ts[0] case Text(s) => s case Param(name) => ":" + name) + Restore(ts[1..])
  }

  function Names(ts: seq<Token>): seq<string> {
    if ts == [] then [] else (match ts[0] case Text(_) => [] case Param(name) => [name]) + Names(ts[1..])
  }

  // ----- the rewriting loop -----

  datatype State = Code | Colon | Line | Block | Literal

  /** The tokens still to come in a scanner state; `p` is the colon of state Colon. */
  ghost function Ahead(q: string, i: nat, state: State, p: nat): seq<Token>
    requires i <= |q| && (state.Colon? ==> p < i) && (state.Block? ==> i > 0)
  {
    match state
    case Code => Lex(q, i, false)
    case Colon => Lex(q, p, false)
    case Line => [Text(q[i..LineEnd(q, i)])] + Lex(q, LineEnd(q, i), false)
    case Block => [Text(q[i..BlockEnd(q, i)])] + Lex(q, BlockEnd(q, i), false)
    case Literal => [Text(q[i..LiteralEnd(q, i)])] + Lex(q, LiteralEnd(q, i), false)
  }

  lemma {:induction false} TextAhead(q: string, i: nat, e: nat, ts: seq<Token>, n: nat)
    requires i < e <= |q|
    ensures Render([Text(q[i..e])] + ts, n) == q[i..i + 1] + Render([Text(q[i + 1..e])] + ts, n)
    ensures Names([Text(q[i..e])] + ts) == Names(ts) && Names([Text(q[i + 1..e])] + ts) == Names(ts)
    ensures Render([Text(q[e..e])] + ts, n) == Render(ts, n)
  {
    hide Render, Names;
    assert q[i..e] == q[i..i + 1] + q[i + 1..e];
    RenderText(q[i..e], ts, n);
    RenderText(q[i + 1..e], ts, n);
    RenderText(q[e..e], ts, n);
    assert q[i..i + 1] + q[i + 1..e] + Render(ts, n) == q[i..i + 1] + (q[i + 1..e] + Render(ts, n));
    assert q[e..e] + Render(ts, n) == Render(ts, n);
  }

  lemma {:induction false} RenderText(s: string, ts: seq<Token>, n: nat)
    ensures Render([Text(s)] + ts, n) == s + Render(ts, n) && Names([Text(s)] + ts) == Names(ts)
  {
    assert ([Text(s)] + ts)[1..] == ts;
  }

  /** The state after a character that is copied; no colon, and not in state Colon. */
  function Next(q: string, i: nat, state: State): State
    requires i < |q|
  {
    match state
    case Code =>
      if q[i] == '-' && i > 0 && q[i - 1] == '-' then Line
      else if q[i] == '*' && i > 0 && q[i - 1] == '/' then Block
      else if q[i] == '\'' then Literal
      else Code
    case Colon => Code
    case Line => if q[i] == '\n' then Code else Line
    case Block => if i > 0 && q[i - 1] == '*' && q[i] == '/' then Code else Block
    case Literal => if q[i] == '\'' then Code else Literal
  }

  /** A copied character is the next one of the text ahead. */
  lemma {:induction false} CopyStep(q: string, i: nat, state: State, n: nat)
    requires i < |q| && !state.Colon? && (state.Block? ==> i > 0) && !(state.Code? && q[i] == ':')
    ensures var now, then' := Ahead(q, i, state, 0), Ahead(q, i + 1, Next(q, i, state), 0);
            Render(now, n) == q[i..i + 1] + Render(then', n) && Names(now) == Names(then')
  {
    hide Render, Names, Lex;
    match state
    case Code =>
      CodeAhead(q, i);
      var e := TextEnd(q, i);
      TextAhead(q, i, e, Lex(q, e, false), n);
    case Line =>
      var e := LineEnd(q, i);
      TextAhead(q, i, e, Lex(q, e, false), n);
    case Block =>
      var e := BlockEnd(q, i);
      TextAhead(q, i, e, Lex(q, e, false), n);
    case Literal =>
      var e := LiteralEnd(q, i);
      TextAhead(q, i, e, Lex(q, e, false), n);
  }

  lemma {:induction false} CodeAhead(q: string, i: nat)
    requires i < |q| && q[i] != ':'
    ensures Lex(q, i, false) == [Text(q[i..TextEnd(q, i)])] + Lex(q, TextEnd(q, i), false)
  {
  }

  /** The name behind a colon ends at `i`. */
  ghost predicate NameStops(q: string, p: nat, i: nat) {
    p < i <= |q| && q[p] == ':' && NameEnd(q, p + 1, p + 1) == i
  }

  lemma {:induction false} ColonAhead(q: string, p: nat, i: nat)
    requires NameStops(q, p, i)
    ensures i < |q| ==> Lex(q, p, false) == [ColonToken(q, p), Text(q[i..i + 1])] + Lex(q, i + 1, false)
    ensures i == |q| ==> Lex(q, p, false) == [ColonToken(q, p)]
  {
    hide NameEnd, ColonToken;
    assert i == |q| ==> [ColonToken(q, p)] + Lex(q, i, false) == [ColonToken(q, p)];
  }

  lemma {:induction false} RenderTwo(t: Token, u: Token, ts: seq<Token>, n: nat)
    requires u.Text?
    ensures t.Text? ==> Render([t, u] + ts, n) == t.text + u.text + Render(ts, n) && Names([t, u] + ts) == Names(ts)
    ensures t.Param? ==> Render([t, u] + ts, n) == Placeholder(n + 1) + u.text + Render(ts, n + 1)
    ensures t.Param? ==> Names([t, u] + ts) == [t.name] + Names(ts)
  {
    hide Placeholder;
    assert ([t, u] + ts)[1..] == [u] + ts && ([u] + ts)[1..] == ts;
    assert [] + Names(ts) == Names(ts);
  }

  /** Where a colon and what follows it end up in the result. */
  lemma {:induction false} AddStep(q: string, p: nat, i: nat, n: nat)
    requires NameStops(q, p, i) && i < |q|
    ensures i == p + 1 ==> Render(Lex(q, p, false), n) == q[p..i + 1] + Render(Lex(q, i + 1, false), n)
    ensures i == p + 1 ==> Names(Lex(q, p, false)) == Names(Lex(q, i + 1, false))
    ensures i > p + 1 ==>
            Render(Lex(q, p, false), n) == Placeholder(n + 1) + q[i..i + 1] + Render(Lex(q, i + 1, false), n + 1)
    ensures i > p + 1 ==> Names(Lex(q, p, false)) == [q[p + 1..i]] + Names(Lex(q, i + 1, false))
  {
    hide Lex, Render, Names, Placeholder;
    ColonAhead(q, p, i);
    RenderTwo(ColonToken(q, p), Text(q[i..i + 1]), Lex(q, i + 1, false), n);
    assert i == p + 1 ==> q[p..p + 1] + q[i..i + 1] == q[p..i + 1];
  }

  lemma {:induction false} AddLast(q: string, p: nat, n: nat)
    requires NameStops(q, p, |q|)
    ensures |q| == p + 1 ==> Render(Lex(q, p, false), n) == q[p..] && Names(Lex(q, p, false)) == []
    ensures |q| > p + 1 ==> Render(Lex(q, p, false), n) == Placeholder(n + 1) && Names(Lex(q, p, false)) == [q[p + 1..]]
  {
    ColonAhead(q, p, |q|);
    hide Lex, Placeholder;
    var t := ColonToken(q, p);
    assert [t][1..] == [];
    assert Placeholder(n + 1) + "" == Placeholder(n + 1);
    assert |q| > p + 1 ==> q[p + 1..|q|] == q[p + 1..] && [t.name] + [] == [t.name];
  }

  ghost predicate Mapped<T>(arr: seq<T>, names: seq<string>, metParam: string -> T) {
    |arr| == |names| && forall k :: 0 <= k < |arr| ==> arr[k] == metParam(names[k])
  }

  /** What has been written, what is pending, and what lies ahead make up the result. */
  ghost predicate Inv(q: string, i: nat, state: State, p: nat, last: nat, buf: string, names: seq<string>) {
    && i <= |q| && (state.Block? ==> i > 0)
    && (state.Colon? ==> p < i && q[p] == ':' && NameEnd(q, p + 1, p + 1) == NameEnd(q, p + 1, i))
    && last <= (if state.Colon? then p else i)
    && buf + q[last..if state.Colon? then p else i] + Render(Ahead(q, i, state, p), |names|) ==
         Render(Lex(q, 0, false), 0)
    && names + Names(Ahead(q, i, state, p)) == Names(Lex(q, 0, false))
  }

  lemma {:induction false} Pending(buf: string, q: string, last: nat, x: nat, y: nat, rest: string, all: string)
    requires last <= x <= y <= |q| && buf + q[last..x] + (q[x..y] + rest) == all
    ensures buf + q[last..y] + rest == all
  {
    assert q[last..y] == q[last..x] + q[x..y];
  }

  lemma {:induction false} InvCopy(q: string, i: nat, state: State, p: nat, last: nat, buf: string,
          names: seq<string>, p': nat)
    requires i < |q| && Inv(q, i, state, p, last, buf, names) && !state.Colon? && !(state.Code? && q[i] == ':')
    ensures Inv(q, i + 1, Next(q, i, state), p', last, buf, names)
  {
    hide Render, Lex, Names;
    CopyStep(q, i, state, |names|);
    Pending(buf, q, last, i, i + 1, Render(Ahead(q, i + 1, Next(q, i, state), 0), |names|),
      Render(Lex(q, 0, false), 0));
  }

  lemma {:induction false} InvColon(q: string, i: nat, p: nat, last: nat, buf: string, names: seq<string>)
    requires i < |q| && Inv(q, i, Code, p, last, buf, names) && q[i] == ':'
    ensures Inv(q, i + 1, Colon, i, last, buf, names)
  {
    hide Render, Lex, Names;
  }

  lemma {:induction false} InvBare(q: string, i: nat, p: nat, last: nat, buf: string, names: seq<string>)
    requires i < |q| && Inv(q, i, Colon, p, last, buf, names) && NameStops(q, p, i) && i == p + 1
    ensures Inv(q, i + 1, Code, p, last, buf, names)
  {
    hide Render, Lex, Names;
    AddStep(q, p, i, |names|);
    Pending(buf, q, last, p, i + 1, Render(Lex(q, i + 1, false), |names|), Render(Lex(q, 0, false), 0));
  }

  lemma {:induction false} InvParam(q: string, i: nat, p: nat, last: nat, buf: string, names: seq<string>)
    requires i < |q| && Inv(q, i, Colon, p, last, buf, names) && NameStops(q, p, i) && i > p + 1
    ensures Inv(q, i + 1, Code, p, i, buf + q[last..p] + Placeholder(|names| + 1), names + [q[p + 1..i]])
  {
    hide Render, Lex, Names, Placeholder;
    AddStep(q, p, i, |names|);
    var rest, ph, name := Render(Lex(q, i + 1, false), |names| + 1), Placeholder(|names| + 1), q[p + 1..i];
    assert buf + q[last..p] + (ph + q[i..i + 1] + rest) == buf + q[last..p] + ph + q[i..i + 1] + rest;
    var more := Names(Lex(q, i + 1, false));
    assert names + ([name] + more) == names + [name] + more;
  }

  lemma {:induction false} InvStart(q: string)
    ensures Inv(q, 0, Code, 0, 0, "", [])
  {
    hide Render, Lex, Names;
    assert "" + q[0..0] + Render(Lex(q, 0, false), 0) == Render(Lex(q, 0, false), 0);
    assert [] + Names(Lex(q, 0, false)) == Names(Lex(q, 0, false));
  }

  /** One more character of a name, or the end of the name. */
  lemma {:induction false} InvName(q: string, i: nat, p: nat, last: nat, buf: string, names: seq<string>)
    requires i < |q| && Inv(q, i, Colon, p, last, buf, names)
    ensures last <= p < i
    ensures if (if i == p + 1 then IsLetter(q[i]) else IsNameChar(q[i]))
            then Inv(q, i + 1, Colon, p, last, buf, names) else NameStops(q, p, i)
  {
    hide Render, Lex, Names;
  }

  /** `MapToSlice`. */
  method MapToSlice<T>(q: string, metParam: string -> T) returns (query: string, arr: seq<T>)
    ensures query == Render(Lex(q, 0, false), 0)
    ensures Mapped(arr, Names(Lex(q, 0, false)), metParam)
    ensures Rewritten(q, query, arr, metParam)
  {
    hide Render, Lex, Names, Placeholder, Inv, Mapped, NameStops, Rewritten;
    InvStart(q);
    arr := [];
    NothingMapped(metParam);
    var buf, state, p, last, prev := "", Code, 0, 0, '\0';
    ghost var names: seq<string> := [];
    for i := 0 to |q|
      invariant Inv(q, i, state, p, last, buf, names)
      invariant Mapped(arr, names, metParam)
      invariant i > 0 ==> prev == q[i - 1]
      invariant i == 0 ==> prev == '\0'
    {
      var r := q[i];
      match state {
        case Line =>
          InvCopy(q, i, state, p, last, buf, names, p);
          if r == '\n' {
            state := Code;
          }
        case Block =>
          InvCopy(q, i, state, p, last, buf, names, p);
          if prev == '*' && r == '/' {
            state := Code;
          }
        case Literal =>
          InvCopy(q, i, state, p, last, buf, names, p);
          if r == '\'' {
            state := Code;
          }
        case Code =>
          if r == ':' {
            InvColon(q, i, p, last, buf, names);
            state := Colon;
            p := i;
          } else {
            InvCopy(q, i, state, p, last, buf, names, p);
            if r == '-' {
              if prev == '-' {
                state := Line;
              }
            } else if r == '*' {
              if prev == '/' {
                state := Block;
              }
            } else if r == '\'' {
              state := Literal;
            }
          }
        case Colon =>
          InvName(q, i, p, last, buf, names);
          if !(IsLetter(r) || (i - p > 1 && ('0' <= r <= '9' || r == '$' || r == '_' || r == '#'))) {
            state := Code;
            if i - p <= 1 {
              InvBare(q, i, p, last, buf, names);
            } else {
              InvParam(q, i, p, last, buf, names);
              buf, arr, names, last := Add(q, last, p, i, buf, arr, names, metParam);
            }
          }
      }
      prev := r;
    }
    query, arr := Finish(q, state, p, last, buf, arr, names, metParam);
    RewrittenIs(q, query, arr, metParam);
  }

  lemma {:induction false} NothingMapped<T>(metParam: string -> T)
    ensures Mapped([], [], metParam)
  {
  }

  /** The closure that closes a parameter. */
  method Add<T>(q: string, last: nat, p: nat, i: nat, buf: string, arr: seq<T>, ghost names: seq<string>,
          metParam: string -> T)
    returns (buf': string, arr': seq<T>, ghost names': seq<string>, last': nat)
    requires last <= p < i <= |q| && Mapped(arr, names, metParam)
    ensures buf' == buf + q[last..p] + Placeholder(|names| + 1)
    ensures names' == names + [q[p + 1..i]] && Mapped(arr', names', metParam) && last' == i
  {
    arr' := arr + [metParam(q[p + 1..i])];
    names' := names + [q[p + 1..i]];
    buf' := buf + q[last..p];
    buf' := buf' + Placeholder(|arr'|);
    last' := i;
  }

  /** A parameter at the very end, and the text behind the last one. */
  method Finish<T>(q: string, state: State, p: nat, last: nat, buf: string, arr: seq<T>, ghost names: seq<string>,
          metParam: string -> T)
    returns (query: string, arr': seq<T>)
    requires Inv(q, |q|, state, p, last, buf, names) && Mapped(arr, names, metParam)
    ensures query == Render(Lex(q, 0, false), 0)
    ensures Mapped(arr', Names(Lex(q, 0, false)), metParam)
  {
    hide Render, Lex, Names, Placeholder;
    query, arr' := buf, arr;
    var l := last;
    ghost var names' := names;
    ghost var all := Names(Lex(q, 0, false));
    if state == Colon {
      AddLast(q, p, |names|);
      assert names + [] == names;
      if |q| - p > 1 {
        query, arr', names', l := Add(q, last, p, |q|, buf, arr, names, metParam);
        assert q[p + 1..|q|] == q[p + 1..];
      } else {
        assert q[last..] == q[last..p] + q[p..];
      }
    } else {
      DoneAhead(q, state, |names|);
      assert names + [] == names && q[last..|q|] == q[last..];
    }
    assert names' == all;
    if l <= |q| - 1 {
      query := query + q[l..];
    } else {
      assert query + "" == query;
    }
  }

  lemma {:induction false} DoneAhead(q: string, state: State, n: nat)
    requires !state.Colon? && (state.Block? ==> |q| > 0)
    ensures Render(Ahead(q, |q|, state, 0), n) == "" && Names(Ahead(q, |q|, state, 0)) == []
  {
    assert Lex(q, |q|, false) == [];
    var t := Text(q[|q|..|q|]);
    assert [t] + [] == [t] && [t][1..] == [];
  }

  // ----- laws -----

  lemma {:induction false} RestoreCons(t: Token, ts: seq<Token>)
    ensures Restore([t] + ts) == (match t case Text(s) => s case Param(name) => ":" + name) + Restore(ts)
  {
    assert ([t] + ts)[1..] == ts;
  }

  lemma {:induction false} ColonRestored(q: string, i: nat)
    requires i < |q| && q[i] == ':'
    ensures (match ColonToken(q, i) case Text(s) => s case Param(name) => ":" + name) == q[i..NameEnd(q, i + 1, i + 1)]
  {
    var e := NameEnd(q, i + 1, i + 1);
    assert q[i..e] == q[i..i + 1] + q[i + 1..e];
  }

  lemma {:induction false} LexText(q: string, i: nat, rescan: bool)
    requires i < |q| && q[i] != ':'
    ensures Lex(q, i, rescan) == [Text(q[i..TextEnd(q, i)])] + Lex(q, TextEnd(q, i), rescan)
  {
  }

  lemma {:induction false} LexColon(q: string, i: nat, rescan: bool)
    requires i < |q| && q[i] == ':'
    ensures var e, t := NameEnd(q, i + 1, i + 1), ColonToken(q, i);
            Lex(q, i, rescan) ==
              if rescan || e == |q| then [t] + Lex(q, e, rescan)
              else [t] + ([Text(q[e..e + 1])] + Lex(q, e + 1, rescan))
  {
    hide NameEnd, ColonToken, TextEnd;
    var e, t := NameEnd(q, i + 1, i + 1), ColonToken(q, i);
    if !(rescan || e == |q|) {
      TwoFront(t, Text(q[e..e + 1]), Lex(q, e + 1, rescan));
    }
  }

  lemma {:induction false} TwoFront(t: Token, u: Token, ts: seq<Token>)
    ensures [t, u] + ts == [t] + ([u] + ts)
  {
  }

  /** Putting the names back restores the query. */
  lemma {:induction false} RestoreLex(q: string, i: nat, rescan: bool)
    requires i <= |q|
    ensures Restore(Lex(q, i, rescan)) == q[i..]
    decreases |q| - i
  {
    if i < |q| && q[i] == ':' {
      var e := NameEnd(q, i + 1, i + 1);
      if rescan || e == |q| {
        RestoreLex(q, e, rescan);
        RestoreColon(q, i, e, rescan);
      } else {
        RestoreLex(q, e + 1, rescan);
        RestoreColonText(q, i, e, rescan);
      }
    } else if i < |q| {
      RestoreLex(q, TextEnd(q, i), rescan);
      RestoreText(q, i, TextEnd(q, i), rescan);
    }
  }

  lemma {:induction false} RestoreText(q: string, i: nat, e: nat, rescan: bool)
    requires i < |q| && q[i] != ':' && e == TextEnd(q, i) && Restore(Lex(q, e, rescan)) == q[e..]
    ensures Restore(Lex(q, i, rescan)) == q[i..]
  {
    hide Lex, Restore, TextEnd;
    LexText(q, i, rescan);
    RestoreCons(Text(q[i..e]), Lex(q, e, rescan));
    assert q[i..] == q[i..e] + q[e..];
  }

  lemma {:induction false} RestoreColon(q: string, i: nat, e: nat, rescan: bool)
    requires i < |q| && q[i] == ':' && e == NameEnd(q, i + 1, i + 1) && (rescan || e == |q|)
    requires Restore(Lex(q, e, rescan)) == q[e..]
    ensures Restore(Lex(q, i, rescan)) == q[i..]
  {
    hide Lex, Restore, NameEnd, ColonToken;
    LexColon(q, i, rescan);
    ColonRestored(q, i);
    RestoreCons(ColonToken(q, i), Lex(q, e, rescan));
    assert q[i..] == q[i..e] + q[e..];
  }

  lemma {:induction false} RestoreColonText(q: string, i: nat, e: nat, rescan: bool)
    requires i < |q| && q[i] == ':' && e == NameEnd(q, i + 1, i + 1) && !rescan && e < |q|
    requires Restore(Lex(q, e + 1, rescan)) == q[e + 1..]
    ensures Restore(Lex(q, i, rescan)) == q[i..]
  {
    hide Lex, Restore, NameEnd, ColonToken;
    LexColon(q, i, rescan);
    ColonRestored(q, i);
    RestoreCons(Text(q[e..e + 1]), Lex(q, e + 1, rescan));
    RestoreCons(ColonToken(q, i), [Text(q[e..e + 1])] + Lex(q, e + 1, rescan));
    ThreePieces(q, i, e);
  }

  lemma {:induction false} ThreePieces(q: string, i: nat, e: nat)
    requires i <= e < |q|
    ensures q[i..e] + (q[e..e + 1] + q[e + 1..]) == q[i..]
  {
  }

  /** The tokens with each parameter renamed to its number, counted from n + 1. */
  function Numbered(ts: seq<Token>, n: nat): seq<Token> {
    if ts == [] then []
    else match ts[0]
      case Text(_) => [ts[0]] + Numbered(ts[1..], n)
      case Param(_) => [Param(Chars(NatToDigits(n + 1)))] + Numbered(ts[1..], n + 1)
  }

  /** The result is the query with the names replaced by numbers, and every
      other character as it was. */
  lemma {:induction false} RenderIsNumbered(ts: seq<Token>, n: nat)
    ensures Render(ts, n) == Restore(Numbered(ts, n))
  {
    hide NatToDigits, Chars;
    if ts != [] {
      var m := if ts[0].Param? then n + 1 else n;
      RenderIsNumbered(ts[1..], m);
      var t := if ts[0].Param? then Param(Chars(NatToDigits(n + 1))) else ts[0];
      assert Numbered(ts, n) == [t] + Numbered(ts[1..], m);
      RestoreCons(t, Numbered(ts[1..], m));
    }
  }

  /** The numbers are 1, 2, 3, ... in the order of the parameters. */
  lemma {:induction false} NumbersCount(ts: seq<Token>, n: nat)
    ensures |Names(Numbered(ts, n))| == |Names(ts)|
    ensures forall k :: 0 <= k < |Names(ts)| ==> Names(Numbered(ts, n))[k] == Chars(NatToDigits(n + k + 1))
  {
    hide NatToDigits, Chars;
    if ts != [] {
      var m := if ts[0].Param? then n + 1 else n;
      var t := if ts[0].Param? then Param(Chars(NatToDigits(n + 1))) else ts[0];
      NumbersCount(ts[1..], m);
      assert Numbered(ts, n) == [t] + Numbered(ts[1..], m);
      NamesCons(t, Numbered(ts[1..], m));
      NamesCons(ts[0], ts[1..]);
      assert ts == [ts[0]] + ts[1..];
    }
  }

  lemma {:induction false} NamesCons(t: Token, ts: seq<Token>)
    ensures Names([t] + ts) == (if t.Param? then [t.name] else []) + Names(ts)
  {
    assert ([t] + ts)[1..] == ts;
  }

  predicate IsName(s: string) {
    s != "" && IsLetter(s[0]) && forall k :: 0 <= k < |s| ==> IsNameChar(s[k])
  }

  /** Every parameter is an identifier, and no longer one stands there. */
  ghost predicate Maximal(ts: seq<Token>) {
    forall k :: 0 <= k < |ts| && ts[k].Param? ==>
      && IsName(ts[k].name)
      && (k + 1 < |ts| ==> ts[k + 1].Text? && ts[k + 1].text != "" && !IsNameChar(ts[k + 1].text[0]))
  }

  lemma {:induction false} NameEndStops(q: string, start: nat, i: nat)
    requires start <= i <= |q|
    ensures var e := NameEnd(q, start, i);
            && (forall k :: i <= k < e ==> if k == start then IsLetter(q[k]) else IsNameChar(q[k]))
            && (start < e < |q| ==> !IsNameChar(q[e]))
    decreases |q| - i
  {
    if NameEnd(q, start, i) > i {
      NameEndStops(q, start, i + 1);
    }
  }

  lemma {:induction false} LexMaximal(q: string, i: nat)
    requires i <= |q|
    ensures Maximal(Lex(q, i, false))
    decreases |q| - i
  {
    if i < |q| && q[i] == ':' {
      var e := NameEnd(q, i + 1, i + 1);
      LexMaximal(q, if e < |q| then e + 1 else e);
      ColonMaximal(q, i, e);
    } else if i < |q| {
      LexMaximal(q, TextEnd(q, i));
      TextMaximal(q, i, TextEnd(q, i));
    }
  }

  lemma {:induction false} TextMaximal(q: string, i: nat, e: nat)
    requires i < |q| && q[i] != ':' && e == TextEnd(q, i) && Maximal(Lex(q, e, false))
    ensures Maximal(Lex(q, i, false))
  {
    hide Lex, TextEnd, Maximal;
    LexText(q, i, false);
    MaximalCons(Text(q[i..e]), Lex(q, e, false));
  }

  lemma {:induction false} ColonMaximal(q: string, i: nat, e: nat)
    requires i < |q| && q[i] == ':' && e == NameEnd(q, i + 1, i + 1)
    requires Maximal(Lex(q, if e < |q| then e + 1 else e, false))
    ensures Maximal(Lex(q, i, false))
  {
    hide Lex, NameEnd, Maximal, IsName, ColonToken, IsNameChar;
    LexColon(q, i, false);
    var t := ColonToken(q, i);
    NameIs(q, i, e, t);
    if e < |q| {
      InsideMaximal(q, i, e, t, Lex(q, e + 1, false));
    } else {
      EndMaximal(q, i, t);
    }
  }

  lemma {:induction false} InsideMaximal(q: string, i: nat, e: nat, t: Token, rest: seq<Token>)
    requires e < |q| && Maximal(rest) && (t.Param? ==> IsName(t.name) && !IsNameChar(q[e]))
    ensures Maximal([t] + ([Text(q[e..e + 1])] + rest))
  {
    hide Maximal, IsName, IsNameChar;
    assert q[e..e + 1] == [q[e]];
    MaximalTwo(t, q[e], rest);
  }

  lemma {:induction false} EndMaximal(q: string, i: nat, t: Token)
    requires t.Param? ==> IsName(t.name)
    ensures Maximal([t] + Lex(q, |q|, false))
  {
    assert Lex(q, |q|, false) == [];
    hide IsName;
    assert Maximal([]);
    MaximalCons(t, []);
  }

  lemma {:induction false} NameIs(q: string, i: nat, e: nat, t: Token)
    requires i < |q| && q[i] == ':' && e == NameEnd(q, i + 1, i + 1) && t == ColonToken(q, i)
    ensures t.Param? ==> IsName(t.name) && (e < |q| ==> !IsNameChar(q[e]))
  {
    NameEndStops(q, i + 1, i + 1);
  }

  lemma {:induction false} MaximalTwo(t: Token, c: char, rest: seq<Token>)
    requires Maximal(rest) && (t.Param? ==> IsName(t.name) && !IsNameChar(c))
    ensures Maximal([t] + ([Text([c])] + rest))
  {
    hide Maximal, IsName, IsNameChar;
    MaximalCons(Text([c]), rest);
    assert ([Text([c])] + rest)[0] == Text([c]);
    MaximalCons(t, [Text([c])] + rest);
  }

  lemma {:induction false} MaximalCons(t: Token, ts: seq<Token>)
    requires Maximal(ts)
    requires t.Param? ==> IsName(t.name) && (ts != [] ==> ts[0].Text? && ts[0].text != "" && !IsNameChar(ts[0].text[0]))
    ensures Maximal([t] + ts)
  {
    var us := [t] + ts;
    forall k | 0 <= k < |us| && us[k].Param?
      ensures IsName(us[k].name)
              && (k + 1 < |us| ==> us[k + 1].Text? && us[k + 1].text != "" && !IsNameChar(us[k + 1].text[0]))
    {
      if k > 0 {
        assert us[k] == ts[k - 1];
        assert k + 1 < |us| ==> us[k + 1] == ts[k];
      }
    }
  }

  /** At `e`, behind a parameter or a colon, a literal or a parameter starts. */
  predicate Starts(q: string, e: nat)
    requires e < |q|
  {
    e + 1 < |q| && (q[e] == '\'' || (q[e] == ':' && IsLetter(q[e + 1])))
  }

  /** Somewhere a literal or a parameter starts right behind a colon or a parameter. */
  predicate Clash(q: string, i: nat)
    requires i <= |q|
    decreases |q| - i
  {
    if i == |q| then false
    else if q[i] == ':' then
      var e := NameEnd(q, i + 1, i + 1);
      e < |q| && (Starts(q, e) || Clash(q, e + 1))
    else Clash(q, TextEnd(q, i))
  }

  /** One character of text, when nothing starts there. */
  lemma {:induction false} SingleToken(q: string, i: nat, e: nat)
    requires i < e < |q| && q[i] == ':' && e == NameEnd(q, i + 1, i + 1) && !Starts(q, e)
    ensures Lex(q, e, true) == [Text(q[e..e + 1])] + Lex(q, e + 1, true)
  {
    NameEndStops(q, i + 1, i + 1);
    assert q[e - 1] != '-' && q[e - 1] != '/' by {
      assert e > i + 1 ==> IsNameChar(q[e - 1]);
    }
    if q[e] == ':' {
      assert NameEnd(q, e + 1, e + 1) == e + 1;
    } else {
      assert TextEnd(q, e) == e + 1;
    }
  }

  /** Not looking again at the character behind a parameter makes a difference
      exactly when a literal or another parameter starts there. */
  lemma {:induction false} RescanMatters(q: string, i: nat)
    requires i <= |q|
    ensures Lex(q, i, false) == Lex(q, i, true) <==> !Clash(q, i)
    decreases |q| - i
  {
    if i < |q| && q[i] == ':' {
      var e := NameEnd(q, i + 1, i + 1);
      var t := ColonToken(q, i);
      if e < |q| {
        RescanMatters(q, e + 1);
        ColonBoth(q, i, e, t);
      } else {
        assert Lex(q, e, true) == Lex(q, e, false) == [];
      }
    } else if i < |q| {
      var e := TextEnd(q, i);
      RescanMatters(q, e);
      var t := Text(q[i..e]);
      assert ([t] + Lex(q, e, false))[1..] == Lex(q, e, false);
      assert ([t] + Lex(q, e, true))[1..] == Lex(q, e, true);
    }
  }

  lemma {:induction false} LongerToken(q: string, e: nat)
    requires e < |q| && Starts(q, e)
    ensures Lex(q, e, true) != [] && Lex(q, e, true)[0] != Text(q[e..e + 1])
  {
    if q[e] == '\'' {
      LexText(q, e, true);
      assert |q[e..TextEnd(q, e)]| > 1;
    } else {
      LexColon(q, e, true);
    }
  }

  lemma {:induction false} ColonBoth(q: string, i: nat, e: nat, t: Token)
    requires i < e < |q| && q[i] == ':' && e == NameEnd(q, i + 1, i + 1) && t == ColonToken(q, i)
    requires Lex(q, e + 1, false) == Lex(q, e + 1, true) <==> !Clash(q, e + 1)
    ensures Lex(q, i, false) == Lex(q, i, true) <==> !Clash(q, i)
  {
    var u := Text(q[e..e + 1]);
    var a, b := Lex(q, e + 1, false), Lex(q, e, true);
    assert Clash(q, i) <==> Starts(q, e) || Clash(q, e + 1);
    hide Lex, NameEnd, Clash, Starts, ColonToken;
    LexColon(q, i, false);
    LexColon(q, i, true);
    SameFront(t, [u] + a, b);
    if Starts(q, e) {
      LongerToken(q, e);
      assert ([u] + a)[0] == u;
    } else {
      SingleToken(q, i, e);
      SameFront(u, a, Lex(q, e + 1, true));
    }
  }

  lemma {:induction false} SameFront(t: Token, a: seq<Token>, b: seq<Token>)
    ensures [t] + a == [t] + b <==> a == b
  {
    assert ([t] + a)[1..] == a && ([t] + b)[1..] == b;
  }

  // ----- what looking again would change in the result -----

  /** Where the parameters stand that a scanner finds. */
  function Places(q: string, i: nat, rescan: bool): (ps: seq<nat>)
    requires i <= |q|
    decreases |q| - i
  {
    if i == |q| then []
    else if q[i] == ':' then
      var e := NameEnd(q, i + 1, i + 1);
      (if e == i + 1 then [] else [i]) + Places(q, if rescan || e == |q| then e else e + 1, rescan)
    else Places(q, TextEnd(q, i), rescan)
  }

  /** Colons with letters behind them, each past the name of the one before. */
  ghost predicate Apart(q: string, i: nat, ps: seq<nat>)
    decreases ps
  {
    ps != [] ==>
      && i <= ps[0] && ps[0] + 1 < |q| && q[ps[0]] == ':' && IsLetter(q[ps[0] + 1])
      && Apart(q, NameEnd(q, ps[0] + 1, ps[0] + 1), ps[1..])
  }

  /** The text from `i` with the parameters at these places numbered from n + 1. */
  ghost function Filled(q: string, i: nat, ps: seq<nat>, n: nat): string
    requires i <= |q| && Apart(q, i, ps)
    decreases ps
  {
    if ps == [] then q[i..]
    else q[i..ps[0]] + (Placeholder(n + 1) + Filled(q, NameEnd(q, ps[0] + 1, ps[0] + 1), ps[1..], n + 1))
  }

  /** The names at these places. */
  ghost function NamesAt(q: string, i: nat, ps: seq<nat>): seq<string>
    requires i <= |q| && Apart(q, i, ps)
    decreases ps
  {
    if ps == [] then []
    else
      var e := NameEnd(q, ps[0] + 1, ps[0] + 1);
      [q[ps[0] + 1..e]] + NamesAt(q, e, ps[1..])
  }

  lemma {:induction false} ApartLater(q: string, i: nat, j: nat, ps: seq<nat>)
    requires i <= j <= |q| && Apart(q, j, ps)
    ensures Apart(q, i, ps)
    ensures forall n: nat :: Filled(q, i, ps, n) == q[i..j] + Filled(q, j, ps, n)
    ensures NamesAt(q, i, ps) == NamesAt(q, j, ps)
  {
    forall n: nat ensures Filled(q, i, ps, n) == q[i..j] + Filled(q, j, ps, n) {
      if ps == [] {
        assert q[i..] == q[i..j] + q[j..];
      } else {
        assert q[i..ps[0]] == q[i..j] + q[j..ps[0]];
      }
    }
  }

  lemma {:induction false} RenderToken(t: Token, ts: seq<Token>, n: nat)
    ensures t.Text? ==> Render([t] + ts, n) == t.text + Render(ts, n) && Names([t] + ts) == Names(ts)
    ensures t.Param? ==> Render([t] + ts, n) == Placeholder(n + 1) + Render(ts, n + 1)
    ensures t.Param? ==> Names([t] + ts) == [t.name] + Names(ts)
  {
    hide Placeholder;
    assert ([t] + ts)[1..] == ts;
    assert [] + Names(ts) == Names(ts);
  }

  /** Where a scanner goes on after a colon and the name behind it. */
  function After(q: string, e: nat, rescan: bool): (j: nat)
    requires e <= |q|
    ensures e <= j <= |q|
  {
    if rescan || e == |q| then e else e + 1
  }

  /** A colon, the name behind it, and a character that is not looked at again. */
  lemma {:induction false} ColonStep(q: string, i: nat, e: nat, rescan: bool, n: nat)
    requires i < |q| && q[i] == ':' && e == NameEnd(q, i + 1, i + 1)
    ensures var j := After(q, e, rescan);
            && (e == i + 1 ==> Render(Lex(q, i, rescan), n) == q[i..j] + Render(Lex(q, j, rescan), n))
            && (e == i + 1 ==> Names(Lex(q, i, rescan)) == Names(Lex(q, j, rescan)))
            && (e > i + 1 ==> Render(Lex(q, i, rescan), n) ==
                                Placeholder(n + 1) + (q[e..j] + Render(Lex(q, j, rescan), n + 1)))
            && (e > i + 1 ==> Names(Lex(q, i, rescan)) == [q[i + 1..e]] + Names(Lex(q, j, rescan)))
  {
    hide *;
    var j, t := After(q, e, rescan), ColonToken(q, i);
    var rest := Lex(q, j, rescan);
    LexColon(q, i, rescan);
    ColonTokenIs(q, i, e);
    AfterIs(q, e, rescan);
    if j == e {
      RenderToken(t, rest, n);
      Joined(q, i, e, j, Render(rest, n), Render(rest, n + 1));
    } else {
      var u := Text(q[e..e + 1]);
      RenderToken(t, [u] + rest, n);
      RenderToken(u, rest, n);
      RenderToken(u, rest, n + 1);
      Joined(q, i, e, j, Render(rest, n), Render(rest, n + 1));
    }
  }

  lemma {:induction false} ColonTokenIs(q: string, i: nat, e: nat)
    requires i < |q| && e == NameEnd(q, i + 1, i + 1)
    ensures ColonToken(q, i) == if e == i + 1 then Text(q[i..i + 1]) else Param(q[i + 1..e])
  {
  }

  lemma {:induction false} AfterIs(q: string, e: nat, rescan: bool)
    requires e <= |q|
    ensures After(q, e, rescan) == if rescan || e == |q| then e else e + 1
  {
  }

  lemma {:induction false} Joined(q: string, i: nat, e: nat, j: nat, a: string, b: string)
    requires i < e <= j <= |q| && j <= e + 1
    ensures j == e ==> q[e..j] + b == b
    ensures e == i + 1 == j ==> q[i..i + 1] + a == q[i..j] + a
    ensures e == i + 1 && j == e + 1 ==> q[i..i + 1] + (q[e..e + 1] + a) == q[i..j] + a
  {
    assert e == i + 1 ==> q[i..j] == q[i..i + 1] + q[e..j];
  }

  /** The result is the text with the parameters at these places replaced. */
  lemma {:induction false} PlacesFilled(q: string, i: nat, rescan: bool, n: nat)
    requires i <= |q|
    ensures var ps := Places(q, i, rescan);
            && Apart(q, i, ps)
            && Render(Lex(q, i, rescan), n) == Filled(q, i, ps, n)
            && Names(Lex(q, i, rescan)) == NamesAt(q, i, ps)
    decreases |q| - i
  {
    if i < |q| && q[i] == ':' {
      var e := NameEnd(q, i + 1, i + 1);
      var j := After(q, e, rescan);
      PlacesFilled(q, j, rescan, if e == i + 1 then n else n + 1);
      ColonFilled(q, i, e, j, rescan, n);
    } else if i < |q| {
      PlacesFilled(q, TextEnd(q, i), rescan, n);
      TextFilled(q, i, TextEnd(q, i), rescan, n);
    }
  }

  lemma {:induction false} TextFilled(q: string, i: nat, e: nat, rescan: bool, n: nat)
    requires i < |q| && q[i] != ':' && e == TextEnd(q, i)
    requires var ps := Places(q, e, rescan);
             && Apart(q, e, ps) && Render(Lex(q, e, rescan), n) == Filled(q, e, ps, n)
             && Names(Lex(q, e, rescan)) == NamesAt(q, e, ps)
    ensures var ps := Places(q, i, rescan);
            && Apart(q, i, ps) && Render(Lex(q, i, rescan), n) == Filled(q, i, ps, n)
            && Names(Lex(q, i, rescan)) == NamesAt(q, i, ps)
  {
    var ps := Places(q, e, rescan);
    assert Places(q, i, rescan) == ps;
    LexText(q, i, rescan);
    hide Lex, Render, Names, Places, Apart, Filled, NamesAt, TextEnd;
    ApartLater(q, i, e, ps);
    RenderToken(Text(q[i..e]), Lex(q, e, rescan), n);
  }

  lemma {:induction false} ColonFilled(q: string, i: nat, e: nat, j: nat, rescan: bool, n: nat)
    requires i < |q| && q[i] == ':' && e == NameEnd(q, i + 1, i + 1) && j == After(q, e, rescan)
    requires var ps, m := Places(q, j, rescan), if e == i + 1 then n else n + 1;
             && Apart(q, j, ps) && Render(Lex(q, j, rescan), m) == Filled(q, j, ps, m)
             && Names(Lex(q, j, rescan)) == NamesAt(q, j, ps)
    ensures var ps := Places(q, i, rescan);
            && Apart(q, i, ps) && Render(Lex(q, i, rescan), n) == Filled(q, i, ps, n)
            && Names(Lex(q, i, rescan)) == NamesAt(q, i, ps)
  {
    hide *;
    var ps := Places(q, j, rescan);
    PlacesColon(q, i, e, j, rescan);
    ColonStep(q, i, e, rescan, n);
    if e == i + 1 {
      ApartLater(q, i, j, ps);
    } else {
      NamedFilled(q, i, e, j, ps, n);
    }
  }

  lemma {:induction false} PlacesColon(q: string, i: nat, e: nat, j: nat, rescan: bool)
    requires i < |q| && q[i] == ':' && e == NameEnd(q, i + 1, i + 1) && j == After(q, e, rescan)
    ensures Places(q, i, rescan) == if e == i + 1 then Places(q, j, rescan) else [i] + Places(q, j, rescan)
  {
    hide NameEnd, TextEnd;
    assert [] + Places(q, j, rescan) == Places(q, j, rescan);
  }

  lemma {:induction false} NamedFilled(q: string, i: nat, e: nat, j: nat, ps: seq<nat>, n: nat)
    requires i + 1 < e <= j <= |q| && q[i] == ':' && e == NameEnd(q, i + 1, i + 1) && Apart(q, j, ps)
    ensures var all := [i] + ps;
            && Apart(q, i, all) && Filled(q, i, all, n) == Placeholder(n + 1) + (q[e..j] + Filled(q, j, ps, n + 1))
            && NamesAt(q, i, all) == [q[i + 1..e]] + NamesAt(q, j, ps)
  {
    NameEndStops(q, i + 1, i + 1);
    ApartLater(q, e, j, ps);
    var all := [i] + ps;
    assert all[0] == i && all[1..] == ps;
    hide Placeholder, NameEnd;
    assert q[i..i] == "";
    assert Apart(q, i, all);
    var rest := Placeholder(n + 1) + (q[e..j] + Filled(q, j, ps, n + 1));
    assert q[i..i] + rest == rest;
  }

  lemma {:induction false} DigitFirst(n: nat)
    ensures var p := Placeholder(n); |p| > 1 && p[0] == ':' && IsDigitChar(p[1])
  {
    assert NatToDigits(n) != [];
  }

  /** A number stands where the other text has a letter. */
  lemma {:induction false} FirstDiffers(q: string, i: nat, a: seq<nat>, b: seq<nat>, n: nat)
    requires i <= |q| && Apart(q, i, a) && Apart(q, i, b) && a != [] && (b == [] || a[0] < b[0])
    ensures Filled(q, i, a, n) != Filled(q, i, b, n)
  {
    DigitFirst(n + 1);
    var k := a[0] - i;
    var x, y := Filled(q, i, a, n), Filled(q, i, b, n);
    hide Placeholder, NameEnd;
    assert x[k + 1] == Placeholder(n + 1)[1];
    assert b != [] ==> a[0] + 1 < b[0];
    assert y[k + 1] == q[a[0] + 1];
  }

  /** The places can be told from the result. */
  lemma {:induction false} FilledTells(q: string, i: nat, a: seq<nat>, b: seq<nat>, n: nat)
    requires i <= |q| && Apart(q, i, a) && Apart(q, i, b) && Filled(q, i, a, n) == Filled(q, i, b, n)
    ensures a == b
    decreases a
  {
    if a != [] && (b == [] || a[0] < b[0]) {
      FirstDiffers(q, i, a, b, n);
    } else if b != [] && (a == [] || b[0] < a[0]) {
      FirstDiffers(q, i, b, a, n);
    } else if a != [] {
      var e := NameEnd(q, a[0] + 1, a[0] + 1);
      SameRest(q[i..a[0]], Placeholder(n + 1), Filled(q, e, a[1..], n + 1), Filled(q, e, b[1..], n + 1));
      FilledTells(q, e, a[1..], b[1..], n + 1);
      assert a == [a[0]] + a[1..] && b == [b[0]] + b[1..];
    }
  }

  lemma {:induction false} SameRest(x: string, y: string, a: string, b: string)
    requires x + (y + a) == x + (y + b)
    ensures a == b
  {
    assert (x + (y + a))[|x|..][|y|..] == a && (x + (y + b))[|x|..][|y|..] == b;
  }

  /** Looking again leaves query and values as they are exactly if the same
      places hold parameters for both scanners; the query alone tells. */
  lemma {:induction false} ResultTells(q: string)
    ensures var now, again := Lex(q, 0, false), Lex(q, 0, true);
            && (Render(now, 0) == Render(again, 0) <==> Places(q, 0, false) == Places(q, 0, true))
            && (Render(now, 0) == Render(again, 0) ==> Names(now) == Names(again))
  {
    hide Lex, Render, Names, Places;
    PlacesFilled(q, 0, false, 0);
    PlacesFilled(q, 0, true, 0);
    if Render(Lex(q, 0, false), 0) == Render(Lex(q, 0, true), 0) {
      FilledTells(q, 0, Places(q, 0, false), Places(q, 0, true), 0);
    }
  }

  /** ... and always if no literal and no parameter starts behind another one. */
  lemma {:induction false} QuietResult(q: string)
    requires !Clash(q, 0)
    ensures var now, again := Lex(q, 0, false), Lex(q, 0, true);
            Render(now, 0) == Render(again, 0) && Names(now) == Names(again)
  {
    RescanMatters(q, 0);
  }

  // ----- where parameters stand, from the text alone -----

  /** The second dash of two, the star behind a slash, or a quote. */
  predicate Opener(q: string, o: nat)
    requires o < |q|
  {
    (o > 0 && q[o - 1] == '-' && q[o] == '-') || (o > 0 && q[o - 1] == '/' && q[o] == '*') || q[o] == '\''
  }

  /** The character that closes what was opened at `o`. */
  predicate Closer(q: string, o: nat, j: nat)
    requires o < j < |q|
  {
    if q[o] == '-' then q[j] == '\n' else if q[o] == '*' then q[j - 1] == '*' && q[j] == '/' else q[j] == '\''
  }

  /** `k` lies in the comment or literal opened at `o`, its closer included. */
  ghost predicate Within(q: string, o: nat, k: nat) {
    o < k < |q| && Opener(q, o) && forall j :: o < j < k ==> !Closer(q, o, j)
  }

  predicate InName(q: string, p: nat, j: nat)
    requires p < j < |q|
  {
    if j == p + 1 then IsLetter(q[j]) else IsNameChar(q[j])
  }

  /** `k` is the character behind the colon at `p` and the name there. */
  ghost predicate Ends(q: string, p: nat, k: nat) {
    p < k < |q| && q[p] == ':' && !InName(q, p, k) && forall j :: p < j < k ==> InName(q, p, j)
  }

  ghost predicate Covers(q: string, o: nat, k: nat, rescan: bool) {
    Within(q, o, k) || (!rescan && Ends(q, o, k))
  }

  /** The scanner looks for parameters, comments and literals at `k`: whatever
      covers that position is itself not looked at. */
  ghost predicate Seen(q: string, k: nat, rescan: bool)
    requires k < |q|
    decreases k
  {
    forall o: nat :: o < k && Covers(q, o, k, rescan) ==> !Seen(q, o, rescan)
  }

  ghost predicate IsPlace(q: string, p: nat, rescan: bool) {
    p + 1 < |q| && q[p] == ':' && IsLetter(q[p + 1]) && Seen(q, p, rescan)
  }

  /** Nothing seen before `i` reaches to `i` or beyond. */
  ghost predicate Boundary(q: string, i: nat, rescan: bool) {
    forall o: nat, k: nat :: o < i <= k < |q| && Covers(q, o, k, rescan) ==> !Seen(q, o, rescan)
  }

  lemma {:induction false} BoundarySeen(q: string, i: nat, rescan: bool)
    requires i < |q| && Boundary(q, i, rescan)
    ensures Seen(q, i, rescan)
  {
    hide Covers;
  }

  lemma {:induction false} BoundaryMoves(q: string, i: nat, e: nat, rescan: bool)
    requires i <= e <= |q| && Boundary(q, i, rescan)
    requires forall m: nat, k: nat :: i <= m < e <= k < |q| && Covers(q, m, k, rescan) ==> !Seen(q, m, rescan)
    ensures Boundary(q, e, rescan)
  {
    hide Covers, Seen;
  }

  lemma {:induction false} LineCloses(q: string, i: nat)
    requires i <= |q|
    ensures var e := LineEnd(q, i);
            (forall j :: i <= j < e - 1 ==> q[j] != '\n') && (e < |q| ==> i < e && q[e - 1] == '\n')
    decreases |q| - i
  {
    if i < |q| && q[i] != '\n' {
      LineCloses(q, i + 1);
    }
  }

  lemma {:induction false} BlockCloses(q: string, i: nat)
    requires 0 < i <= |q|
    ensures var e := BlockEnd(q, i);
            && (forall j :: i <= j < e - 1 ==> !(q[j - 1] == '*' && q[j] == '/'))
            && (e < |q| ==> i < e && q[e - 2] == '*' && q[e - 1] == '/')
    decreases |q| - i
  {
    if i < |q| && !(q[i - 1] == '*' && q[i] == '/') {
      BlockCloses(q, i + 1);
    }
  }

  lemma {:induction false} LiteralCloses(q: string, i: nat)
    requires i <= |q|
    ensures var e := LiteralEnd(q, i);
            (forall j :: i <= j < e - 1 ==> q[j] != '\'') && (e < |q| ==> i < e && q[e - 1] == '\'')
    decreases |q| - i
  {
    if i < |q| && q[i] != '\'' {
      LiteralCloses(q, i + 1);
    }
  }

  /** A comment or literal ends behind its closer, or with the text. */
  lemma {:induction false} TextCloses(q: string, i: nat)
    requires i < |q|
    ensures var e := TextEnd(q, i);
            && (!Opener(q, i) ==> e == i + 1)
            && (Opener(q, i) ==> forall j :: i < j < e - 1 ==> !Closer(q, i, j))
            && (Opener(q, i) && e < |q| ==> i < e - 1 && Closer(q, i, e - 1))
  {
    hide LineEnd, BlockEnd, LiteralEnd;
    LineCloses(q, i + 1);
    BlockCloses(q, i + 1);
    LiteralCloses(q, i + 1);
  }

  lemma {:induction false} TextCovers(q: string, i: nat, e: nat, rescan: bool)
    requires i < |q| && q[i] != ':' && e == TextEnd(q, i)
    ensures forall m: nat :: i < m < e ==> Covers(q, i, m, rescan)
    ensures forall k: nat :: e <= k < |q| ==> !Covers(q, i, k, rescan)
  {
    TextCloses(q, i);
    hide TextEnd, Opener, Closer;
    forall k: nat | e <= k < |q| ensures !Within(q, i, k) {
      assert Opener(q, i) ==> Closer(q, i, e - 1);
    }
  }

  /** Past text, a comment or a literal: only its front is seen. */
  lemma {:induction false} TextBoundary(q: string, i: nat, e: nat, rescan: bool)
    requires i < |q| && q[i] != ':' && e == TextEnd(q, i) && Boundary(q, i, rescan)
    ensures Boundary(q, e, rescan)
    ensures forall p: nat :: i <= p < e ==> !IsPlace(q, p, rescan)
  {
    TextCovers(q, i, e, rescan);
    BoundarySeen(q, i, rescan);
    hide TextEnd, Covers, Boundary;
    BoundaryMoves(q, i, e, rescan);
  }

  lemma {:induction false} NameCovers(q: string, i: nat, e: nat, rescan: bool)
    requires i < |q| && q[i] == ':' && e == NameEnd(q, i + 1, i + 1)
    ensures forall m :: i < m < e ==> q[m] != ':'
    ensures forall m: nat, k: nat :: i < m < e ==> !Covers(q, m, k, rescan)
  {
    NameEndStops(q, i + 1, i + 1);
    hide NameEnd;
    forall m: nat | i < m < e ensures q[m] != ':' && !Opener(q, m) {
      assert IsNameChar(q[m]);
    }
  }

  lemma {:induction false} ColonCovers(q: string, i: nat, e: nat, rescan: bool)
    requires i < |q| && q[i] == ':' && e == NameEnd(q, i + 1, i + 1)
    ensures forall k: nat :: e <= k < |q| ==> (Covers(q, i, k, rescan) <==> !rescan && k == e)
  {
    NameEndStops(q, i + 1, i + 1);
    assert e < |q| ==> !InName(q, i, e);
    assert forall j :: i < j < e ==> InName(q, i, j);
    hide NameEnd, InName;
  }

  /** Past a colon, the name behind it and what ends the name. */
  lemma {:induction false} ColonBoundary(q: string, i: nat, e: nat, rescan: bool)
    requires i < |q| && q[i] == ':' && e == NameEnd(q, i + 1, i + 1) && Boundary(q, i, rescan)
    ensures Boundary(q, After(q, e, rescan), rescan)
    ensures forall p: nat :: i < p < After(q, e, rescan) ==> !IsPlace(q, p, rescan)
    ensures IsPlace(q, i, rescan) <==> i + 1 < e
  {
    NameCovers(q, i, e, rescan);
    ColonCovers(q, i, e, rescan);
    BoundarySeen(q, i, rescan);
    assert i + 1 < e <==> i + 1 < |q| && IsLetter(q[i + 1]);
    hide NameEnd, Covers, Boundary;
    assert !rescan && e < |q| ==> Covers(q, i, e, rescan);
    BoundaryMoves(q, i, After(q, e, rescan), rescan);
  }

  /** The parameters stand exactly at the seen colons with a letter behind them:
      none in a comment or literal, none where another one has just ended, and
      no other one is passed over. */
  lemma {:induction false} PlacesExact(q: string, i: nat, rescan: bool, p: nat)
    requires i <= |q| && Boundary(q, i, rescan)
    ensures p in Places(q, i, rescan) <==> i <= p && IsPlace(q, p, rescan)
    decreases |q| - i
  {
    hide IsPlace, Boundary, NameEnd, TextEnd;
    if i == |q| {
      assert Places(q, i, rescan) == [];
      NoPlaceBehind(q, p, rescan);
    } else if q[i] == ':' {
      var e := NameEnd(q, i + 1, i + 1);
      var j := After(q, e, rescan);
      ColonBoundary(q, i, e, rescan);
      PlacesColon(q, i, e, j, rescan);
      PlacesExact(q, j, rescan, p);
    } else {
      var e := TextEnd(q, i);
      TextBoundary(q, i, e, rescan);
      PlacesExact(q, e, rescan, p);
    }
  }

  lemma {:induction false} NoPlaceBehind(q: string, p: nat, rescan: bool)
    ensures |q| <= p ==> !IsPlace(q, p, rescan)
  {
  }

  /** The query with exactly the parameters of the text replaced, in order. */
  ghost predicate Rewritten<T>(q: string, query: string, arr: seq<T>, metParam: string -> T) {
    exists ps: seq<nat> ::
      && Apart(q, 0, ps) && (forall p: nat :: p in ps <==> IsPlace(q, p, false))
      && query == Filled(q, 0, ps, 0) && Mapped(arr, NamesAt(q, 0, ps), metParam)
  }

  lemma {:induction false} RewrittenIs<T>(q: string, query: string, arr: seq<T>, metParam: string -> T)
    requires query == Render(Lex(q, 0, false), 0) && Mapped(arr, Names(Lex(q, 0, false)), metParam)
    ensures Rewritten(q, query, arr, metParam)
  {
    hide Lex, Render, Names, Places, IsPlace, Mapped, Apart, Filled, NamesAt;
    PlacesFilled(q, 0, false, 0);
    var ps := Places(q, 0, false);
    forall p: nat ensures p in ps <==> IsPlace(q, p, false) {
      PlacesExact(q, 0, false, p);
    }
    assert Apart(q, 0, ps);
  }

  // ----- without literals in the way -----

  /** Somewhere a literal starts right behind a colon or a parameter. */
  predicate LiteralBehind(q: string, i: nat)
    requires i <= |q|
    decreases |q| - i
  {
    if i == |q| then false
    else if q[i] == ':' then
      var e := NameEnd(q, i + 1, i + 1);
      e < |q| && ((q[e] == '\'' && e + 1 < |q|) || LiteralBehind(q, e + 1))
    else LiteralBehind(q, TextEnd(q, i))
  }

  /** The characters of a name start nothing. */
  lemma {:induction false} NamePassed(q: string, i: nat, e: nat)
    requires i <= e <= |q| && forall k :: i <= k < e ==> IsNameChar(q[k])
    ensures Names(Lex(q, i, false)) == Names(Lex(q, e, false))
    ensures LiteralBehind(q, i) == LiteralBehind(q, e)
    decreases e - i
  {
    if i < e {
      NamePassed(q, i + 1, e);
      assert TextEnd(q, i) == i + 1;
      LexText(q, i, false);
      RenderToken(Text(q[i..i + 1]), Lex(q, i + 1, false), 0);
    }
  }

  /** As many parameters as a scanner that looks again finds are found, and
      fewer exactly if one starts right behind another or behind a colon. */
  lemma {:induction false} Missed(q: string, i: nat)
    requires i <= |q| && !LiteralBehind(q, i)
    ensures |Names(Lex(q, i, false))| <= |Names(Lex(q, i, true))|
    ensures |Names(Lex(q, i, false))| < |Names(Lex(q, i, true))| <==> Clash(q, i)
    decreases |q| - i
  {
    hide Lex, Names, NameEnd, TextEnd, Starts;
    if i == |q| {
      NothingLeft(q);
    } else if q[i] == ':' {
      var e := NameEnd(q, i + 1, i + 1);
      if e == |q| {
        NothingLeft(q);
        ColonStep(q, i, e, false, 0);
        ColonStep(q, i, e, true, 0);
        AfterIs(q, e, false);
        AfterIs(q, e, true);
      } else if Starts(q, e) {
        var f := NameEnd(q, e + 1, e + 1);
        ParamStarts(q, e);
        NamePassed(q, e + 1, f);
        Missed(q, f);
        MissedHere(q, i, e, f);
      } else {
        Missed(q, e + 1);
        NotMissedHere(q, i, e);
      }
    } else {
      Missed(q, TextEnd(q, i));
      SameText(q, i, TextEnd(q, i));
    }
  }

  lemma {:induction false} NothingLeft(q: string)
    ensures forall rescan :: Names(Lex(q, |q|, rescan)) == []
  {
  }

  lemma {:induction false} SameText(q: string, i: nat, e: nat)
    requires i < |q| && q[i] != ':' && e == TextEnd(q, i)
    ensures forall rescan :: Names(Lex(q, i, rescan)) == Names(Lex(q, e, rescan))
  {
    hide *;
    forall rescan ensures Names(Lex(q, i, rescan)) == Names(Lex(q, e, rescan)) {
      LexText(q, i, rescan);
      RenderToken(Text(q[i..e]), Lex(q, e, rescan), 0);
    }
  }

  lemma {:induction false} ParamStarts(q: string, e: nat)
    requires e < |q| && Starts(q, e) && !(q[e] == '\'' && e + 1 < |q|)
    ensures q[e] == ':' && e + 1 < NameEnd(q, e + 1, e + 1)
    ensures forall k :: e + 1 <= k < NameEnd(q, e + 1, e + 1) ==> IsNameChar(q[k])
  {
    NameEndStops(q, e + 1, e + 1);
  }

  lemma {:induction false} MissedHere(q: string, i: nat, e: nat, f: nat)
    requires i < e < |q| && q[i] == ':' && e == NameEnd(q, i + 1, i + 1) && q[e] == ':' && Starts(q, e)
    requires f == NameEnd(q, e + 1, e + 1) > e + 1 && Names(Lex(q, e + 1, false)) == Names(Lex(q, f, false))
    requires |Names(Lex(q, f, false))| <= |Names(Lex(q, f, true))|
    ensures |Names(Lex(q, i, false))| < |Names(Lex(q, i, true))|
  {
    hide *;
    ColonStep(q, i, e, false, 0);
    ColonStep(q, i, e, true, 0);
    ColonStep(q, e, f, true, 0);
    AfterIs(q, e, false);
    AfterIs(q, e, true);
    AfterIs(q, f, true);
  }

  lemma {:induction false} NotMissedHere(q: string, i: nat, e: nat)
    requires i < e < |q| && q[i] == ':' && e == NameEnd(q, i + 1, i + 1) && !Starts(q, e)
    ensures |Names(Lex(q, i, true))| - |Names(Lex(q, i, false))| ==
            |Names(Lex(q, e + 1, true))| - |Names(Lex(q, e + 1, false))|
  {
    hide *;
    SingleToken(q, i, e);
    ColonStep(q, i, e, false, 0);
    ColonStep(q, i, e, true, 0);
    AfterIs(q, e, false);
    AfterIs(q, e, true);
    RenderToken(Text(q[e..e + 1]), Lex(q, e + 1, true), 0);
  }

  /** Without such literals the result is the same exactly if there is no clash. */
  lemma {:induction false} ResultChanges(q: string)
    requires !LiteralBehind(q, 0)
    ensures Render(Lex(q, 0, false), 0) == Render(Lex(q, 0, true), 0) <==> !Clash(q, 0)
  {
    Missed(q, 0);
    ResultTells(q);
    if !Clash(q, 0) {
      QuietResult(q);
    }
    hide Lex, Render, Names, Clash, LiteralBehind;
  }

  /** Two parameters without anything between them: the second is not found. */
  lemma {:induction false} SecondIsMissed()
    ensures Names(Lex(":a:b", 0, false)) == ["a"] && Names(Lex(":a:b", 0, true)) == ["a", "b"]
  {
    var q := ":a:b";
    assert NameEnd(q, 1, 1) == 2 && NameEnd(q, 3, 3) == 4 && NameEnd(q, 1, 2) == 2;
    assert ColonToken(q, 0) == Param("a") && ColonToken(q, 2) == Param("b");
    assert Lex(q, 3, false) == [Text("b")] + Lex(q, 4, false);
    assert Lex(q, 2, true) == [Param("b")] + Lex(q, 4, true);
  }

  lemma {:induction false} RewrittenEnds(q: string)
    requires q == ":a':b'"
    ensures NameEnd(q, 1, 1) == 2 && NameEnd(q, 4, 4) == 5 && TextEnd(q, 2) == 6
    ensures q[1..2] == "a" && q[4..5] == "b"
    ensures forall rescan :: Names(Lex(q, 6, rescan)) == []
  {
    assert NameEnd(q, 1, 2) == 2 && NameEnd(q, 4, 5) == 5;
    assert LiteralEnd(q, 5) == 6 && LiteralEnd(q, 4) == 6 && LiteralEnd(q, 3) == 6;
  }

  /** A literal behind a parameter is taken for text, and what is in it for a
      parameter. */
  lemma {:induction false} LiteralRewritten()
    ensures Names(Lex(":a':b'", 0, false)) == ["a", "b"] && Names(Lex(":a':b'", 0, true)) == ["a"]
    ensures Render(Lex(":a':b'", 0, false), 0) != Render(Lex(":a':b'", 0, true), 0)
  {
    hide *;
    var q := ":a':b'";
    RewrittenEnds(q);
    AfterIs(q, 2, false);
    AfterIs(q, 2, true);
    AfterIs(q, 5, false);
    ColonStep(q, 0, 2, false, 0);
    ColonStep(q, 3, 5, false, 0);
    ColonStep(q, 0, 2, true, 0);
    LexText(q, 2, true);
    RenderToken(Text(q[2..6]), Lex(q, 6, true), 0);
    ResultTells(q);
  }

  /** With nothing of note in the literal no harm is done. */
  lemma {:induction false} HarmlessLiteral()
    ensures Clash(":a'x'", 0) && Render(Lex(":a'x'", 0, false), 0) == Render(Lex(":a'x'", 0, true), 0)
  {
    var q := ":a'x'";
    assert NameEnd(q, 1, 2) == 2 && NameEnd(q, 1, 1) == 2;
    assert LiteralEnd(q, 4) == 5 && LiteralEnd(q, 3) == 5 && TextEnd(q, 2) == 5;
    assert TextEnd(q, 3) == 4 && TextEnd(q, 4) == 5;
    ResultTells(q);
    assert Places(q, 5, false) == [] && Places(q, 4, false) == [] && Places(q, 3, false) == [];
    assert Places(q, 5, true) == [] && Places(q, 2, true) == [];
  }
}
