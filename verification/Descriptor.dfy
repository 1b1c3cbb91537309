/** Oracle connection descriptors (sid/sid.go): printing and parsing the
    nested (NAME=value) and (NAME=(...)(...)) grammar. */
module Descriptor {
  import opened Texts
  import opened Decimals
  import opened Wrappers

  datatype Statement = Statement(name: string, value: string, statements: seq<Statement>)

  const NOTHING := Statement("", "", [])

  predicate Starts(s: string, c: char) { s != "" && s[0] == c }

  // ----- Print -----

  function Print(t: Statement, prefix: string, indent: string): string
    decreases t, 1
  {
    prefix + "(" + t.name + "=" + t.value
    + (if t.value == "" then PrintAll(t.statements, prefix + indent, indent) else "") + ")"
  }

  function PrintAll(ts: seq<Statement>, prefix: string, indent: string): string
    decreases ts, 0
  {
    if ts == [] then "" else Print(ts[0], prefix, indent) + PrintAll(ts[1..], prefix, indent)
  }

  // ----- Parse -----

  /** A panic is an index out of range in the original. */
  datatype ParseResult = Ok(statement: Statement, rest: string) | Error(rest: string) | Panic
  datatype ListResult = ListOk(statements: seq<Statement>, rest: string) | ListError(rest: string) | ListPanic

  ghost predicate IsSuffix(t: string, s: string) { |t| <= |s| && t == s[|s| - |t|..] }

  lemma {:induction false} SuffixTransitive(a: string, b: string, c: string)
    requires IsSuffix(a, b) && IsSuffix(b, c)
    ensures IsSuffix(a, c)
  {
  }

  /** One statement off the front of a text. */
  function Parsed(input: string): (r: ParseResult)
    ensures r.Ok? ==> |r.rest| <= |input|
    ensures r.Ok? && input != "" && input[0] == '(' ==> |r.rest| < |input|
    decreases |input|, 1
  {
    ParsedFrom(TrimLeft(input))
  }

  function ParsedFrom(s: string): (r: ParseResult)
    ensures r.Ok? ==> |r.rest| <= |s|
    ensures r.Ok? && s != "" && s[0] == '(' ==> |r.rest| < |s|
    decreases |s|, 0
  {
    if s == "" || s[0] != '(' then Ok(NOTHING, s)
    else
      var i := IndexOf(s[1..], '=') + 1;
      if i == |s| || ')' in s[1..i] then Error(s)
      else ParsedValue(s[1..i], TrimLeft(s[i + 1..]))
  }

  /** What follows the equals sign. */
  function ParsedValue(name: string, s: string): (r: ParseResult)
    ensures r.Ok? ==> |r.rest| <= |s|
    decreases |s|, 3
  {
    if s == "" then Ok(Statement(name, "", []), s)
    else if s[0] != '(' then
      var i := IndexOf(s, ')');
      if i == |s| then Error(s)
      else if i == 0 then Panic
      else if '(' in s[1..i] then Error(s)
      else Ok(Statement(name, s[..i], []), TrimLeft(s[i + 1..]))
    else
      match ParsedList(s)
      case ListOk(ts, rest) => Ok(Statement(name, "", ts), Closed(rest))
      case ListError(rest) => Error(rest)
      case ListPanic => Panic
  }

  /** Behind the children: white space and at most one closing parenthesis. */
  function Closed(s: string): (r: string)
    ensures |r| <= |s|
  {
    var t := TrimLeft(s);
    if t != "" && t[0] == ')' then TrimLeft(t[1..]) else t
  }

  /** Statements up to one that does not start with a parenthesis or has no name. */
  function ParsedList(s: string): (r: ListResult)
    ensures r.ListOk? ==> |r.rest| <= |s|
    decreases |s|, 2
  {
    if s == "" || s[0] != '(' then ListOk([], s)
    else
      match Parsed(s)
      case Error(rest) => ListError(rest)
      case Panic => ListPanic
      case Ok(sub, rest) => if sub.name == "" then ListOk([], rest) else Prepend([sub], ParsedList(rest))
  }

  function Prepend(ts: seq<Statement>, r: ListResult): ListResult {
    if r.ListOk? then ListOk(ts + r.statements, r.rest) else r
  }

  lemma {:induction false} PrependMore(ts: seq<Statement>, sub: Statement, r: ListResult)
    ensures Prepend(ts + [sub], r) == Prepend(ts, Prepend([sub], r))
  {
    if r.ListOk? {
      assert ts + [sub] + r.statements == ts + ([sub] + r.statements);
    }
  }

  lemma {:induction false} PrependNone(r: ListResult)
    ensures Prepend([], r) == r
  {
    if r.ListOk? {
      assert [] + r.statements == r.statements;
    }
  }

  /** The loop over the children. */
  method ParseChildren(list: string) returns (r: ListResult)
    ensures r == ParsedList(list)
    decreases |list|, 1
  {
    var s := list;
    var statements: seq<Statement> := [];
    PrependNone(ParsedList(list));
    while s != "" && s[0] == '('
      invariant |s| <= |list| && Prepend(statements, ParsedList(s)) == ParsedList(list)
      decreases |s|
    {
      var sub := Parse(s);
      if sub.Error? {
        return ListError(sub.rest);
      }
      if sub.Panic? {
        return ListPanic;
      }
      if sub.statement.name == "" {
        assert statements + [] == statements;
        return ListOk(statements, sub.rest);
      }
      s := sub.rest;
      PrependMore(statements, sub.statement, ParsedList(s));
      statements := statements + [sub.statement];
    }
    assert statements + [] == statements;
    r := ListOk(statements, s);
  }

  /** What follows the equals sign: a value or children. */
  method ParseAfterName(name: string, text: string) returns (r: ParseResult)
    ensures r == ParsedValue(name, text)
    decreases |text|, 2
  {
    hide TrimLeft, IndexOf, ParsedList;
    var s := text;
    if s == "" {
      return Ok(Statement(name, "", []), s);
    }
    if s[0] != '(' {
      var i := IndexOf(s, ')');
      if i == |s| {
        return Error(s);
      }
      if i == 0 {
        return Panic;
      }
      if '(' in s[1..i] {
        return Error(s);
      }
      return Ok(Statement(name, s[..i], []), TrimLeft(s[i + 1..]));
    }
    var children := ParseChildren(s);
    if children.ListError? {
      return Error(children.rest);
    }
    if children.ListPanic? {
      return Panic;
    }
    s := TrimLeft(children.rest);
    if s != "" && s[0] == ')' {
      s := TrimLeft(s[1..]);
    }
    r := Ok(Statement(name, "", children.statements), s);
  }

  /** `Statement.Parse`. */
  method Parse(input: string) returns (r: ParseResult)
    ensures r == Parsed(input)
    decreases |input|, 0
  {
    hide TrimLeft, IndexOf, ParsedValue;
    var s := TrimLeft(input);
    if s == "" || s[0] != '(' {
      return Ok(NOTHING, s);
    }
    var i := IndexOf(s[1..], '=') + 1;
    if i == |s| || ')' in s[1..i] {
      return Error(s);
    }
    r := ParseAfterName(s[1..i], TrimLeft(s[i + 1..]));
  }

  // ----- the remainder is a suffix -----

  lemma {:induction false} TrimSuffix(s: string, k: nat)
    requires k <= |s|
    ensures IsSuffix(TrimLeft(s[k..]), s)
  {
  }

  lemma {:induction false} ClosedSuffix(s: string)
    ensures IsSuffix(Closed(s), s)
  {
    TrimSuffix(s, 0);
    assert s[0..] == s;
    var t := TrimLeft(s);
    if t != "" && t[0] == ')' {
      TrimSuffix(t, 1);
      SuffixTransitive(TrimLeft(t[1..]), t, s);
    }
  }

  /** Whatever the input, what is left over is the end of it, with an error as well as without. */
  lemma {:induction false} ParsedSuffix(input: string)
    ensures !Parsed(input).Panic? ==> IsSuffix(Parsed(input).rest, input)
    decreases |input|, 1
  {
    hide ParsedFrom;
    var s := TrimLeft(input);
    FromSuffix(s);
    if !Parsed(input).Panic? {
      SuffixTransitive(Parsed(input).rest, s, input);
    }
  }

  lemma {:induction false} FromSuffix(s: string)
    ensures !ParsedFrom(s).Panic? ==> IsSuffix(ParsedFrom(s).rest, s)
    decreases |s|, 0
  {
    hide TrimLeft, ParsedValue;
    if s != "" && s[0] == '(' {
      var i := IndexOf(s[1..], '=') + 1;
      if i < |s| && ')' !in s[1..i] {
        TrimSuffix(s, i + 1);
        var t := TrimLeft(s[i + 1..]);
        ValueSuffix(s[1..i], t);
        var r := ParsedValue(s[1..i], t);
        if !r.Panic? {
          SuffixTransitive(r.rest, t, s);
        }
      }
    }
  }

  lemma {:induction false} ValueSuffix(name: string, s: string)
    ensures !ParsedValue(name, s).Panic? ==> IsSuffix(ParsedValue(name, s).rest, s)
    decreases |s|, 3
  {
    hide IndexOf, TrimLeft;
    if s != "" && s[0] != '(' {
      var i := IndexOf(s, ')');
      if i < |s| {
        TrimSuffix(s, i + 1);
      }
    } else if s != "" {
      ListSuffix(s);
      var r := ParsedList(s);
      if r.ListOk? {
        ClosedSuffix(r.rest);
        SuffixTransitive(Closed(r.rest), r.rest, s);
      }
    }
  }

  lemma {:induction false} ListSuffix(s: string)
    ensures !ParsedList(s).ListPanic? ==> IsSuffix(ParsedList(s).rest, s)
    decreases |s|, 2
  {
    if s != "" && s[0] == '(' {
      ParsedSuffix(s);
      var r := Parsed(s);
      if r.Ok? && r.statement.name != "" {
        ListSuffix(r.rest);
        if !ParsedList(r.rest).ListPanic? {
          SuffixTransitive(ParsedList(r.rest).rest, r.rest, s);
        }
      }
    }
  }

  // ----- no panic without an empty value -----

  /** At k an equals sign with nothing but white space before a closing parenthesis. */
  predicate EmptyValueAt(s: string, k: nat)
    requires k < |s|
  {
    s[k] == '=' && var v := TrimLeft(s[k + 1..]); v != "" && v[0] == ')'
  }

  ghost predicate NoEmptyValue(s: string) { forall k :: 0 <= k < |s| ==> !EmptyValueAt(s, k) }

  lemma {:induction false} NoEmptySuffix(t: string, s: string)
    requires NoEmptyValue(s) && IsSuffix(t, s)
    ensures NoEmptyValue(t)
  {
    hide TrimLeft;
    var o := |s| - |t|;
    forall k | 0 <= k < |t| ensures !EmptyValueAt(t, k) {
      assert t[k + 1..] == s[o + k + 1..];
      assert !EmptyValueAt(s, o + k);
    }
  }

  /** A text without an empty value is parsed, or refused, but never panics. */
  lemma {:induction false} NeverPanics(input: string)
    requires NoEmptyValue(input)
    ensures !Parsed(input).Panic?
    decreases |input|, 1
  {
    hide ParsedFrom, NoEmptyValue;
    assert input[0..] == input;
    TrimSuffix(input, 0);
    NoEmptySuffix(TrimLeft(input), input);
    FromNeverPanics(TrimLeft(input));
  }

  lemma {:induction false} FromNeverPanics(s: string)
    requires NoEmptyValue(s)
    ensures !ParsedFrom(s).Panic?
    decreases |s|, 0
  {
    hide TrimLeft, ParsedValue;
    if s != "" && s[0] == '(' {
      var i := IndexOf(s[1..], '=') + 1;
      if i < |s| {
        assert s[i] == s[1..][i - 1] && !EmptyValueAt(s, i);
        TrimSuffix(s, i + 1);
        var t := TrimLeft(s[i + 1..]);
        NoEmptySuffix(t, s);
        ValueNeverPanics(s[1..i], t);
      }
    }
  }

  lemma {:induction false} ValueNeverPanics(name: string, s: string)
    requires NoEmptyValue(s) && (s != "" ==> s[0] != ')')
    ensures !ParsedValue(name, s).Panic?
    decreases |s|, 3
  {
    hide TrimLeft, ParsedList;
    if s != "" && s[0] == '(' {
      ListNeverPanics(s);
    }
  }

  lemma {:induction false} ListNeverPanics(s: string)
    requires NoEmptyValue(s)
    ensures !ParsedList(s).ListPanic?
    decreases |s|, 2
  {
    hide Parsed, NoEmptyValue;
    if s != "" && s[0] == '(' {
      NeverPanics(s);
      var r := Parsed(s);
      if r.Ok? && r.statement.name != "" {
        ParsedSuffix(s);
        NoEmptySuffix(r.rest, s);
        ListNeverPanics(r.rest);
      }
    }
  }

  // ----- exactly which texts panic -----

  /** One pass over the text with a stack, innermost first, that says of every
      open list whether the statement it belongs to has no name.  At the
      opening parenthesis of a statement: does the text come to an empty value
      where a value is looked for? */
  predicate Trips(s: string, open: seq<bool>)
    requires s != "" && s[0] == '('
    decreases |s|, 0, 0
  {
    var i := IndexOf(s[1..], '=') + 1;
    i < |s| && ')' !in s[1..i] && TripsAtValue(TrimLeft(s[i + 1..]), i == 1, open)
  }

  /** ... behind its equals sign ... */
  predicate TripsAtValue(v: string, unnamed: bool, open: seq<bool>)
    decreases |v|, 2, 0
  {
    if v == "" then false
    else if v[0] == ')' then true
    else if v[0] == '(' then Trips(v, [unnamed] + open)
    else
      var e := IndexOf(v, ')');
      e < |v| && '(' !in v[1..e] && TripsAfter(TrimLeft(v[e + 1..]), unnamed, open)
  }

  /** ... and behind a statement.  A named one may have a sibling; else its list ends. */
  predicate TripsAfter(s: string, unnamed: bool, open: seq<bool>)
    decreases |s|, 1, |open|
  {
    if open == [] then false
    else if !unnamed && s != "" && s[0] == '(' then Trips(s, open)
    else TripsAfter(Closed(s), open[0], open[1..])
  }

  /** The answer for the rest of the text, once a statement was parsed. */
  predicate TripsOn(r: ParseResult, open: seq<bool>) {
    match r
    case Panic => true
    case Error(_) => false
    case Ok(t, rest) => TripsAfter(rest, t.name == "", open)
  }

  predicate TripsOnList(r: ListResult, unnamed: bool, open: seq<bool>) {
    match r
    case ListPanic => true
    case ListError(_) => false
    case ListOk(_, rest) => TripsAfter(Closed(rest), unnamed, open)
  }

  lemma {:induction false} EndNeverTrips(unnamed: bool, open: seq<bool>)
    ensures !TripsAfter("", unnamed, open)
    decreases |open|
  {
    if open != [] {
      assert Closed("") == "";
      EndNeverTrips(open[0], open[1..]);
    }
  }

  /** The pass over the text follows the recursive parser, whatever lists are open. */
  lemma {:induction false} StatementTrips(s: string, open: seq<bool>)
    requires s != "" && s[0] == '('
    ensures Trips(s, open) == TripsOn(ParsedFrom(s), open)
    decreases |s|, 0
  {
    hide TrimLeft, IndexOf, ParsedValue, TripsAfter, TripsAtValue;
    var i := IndexOf(s[1..], '=') + 1;
    if i < |s| && ')' !in s[1..i] {
      ValueTrips(s[1..i], TrimLeft(s[i + 1..]), s, open);
    }
  }

  lemma {:induction false} ValueTrips(name: string, v: string, s: string, open: seq<bool>)
    requires |v| < |s|
    ensures TripsAtValue(v, |name| == 0, open) == TripsOn(ParsedValue(name, v), open)
    decreases |s|, 0, 0
  {
    hide TrimLeft, ParsedList, Trips, TripsAfter;
    if v == "" {
      EndNeverTrips(name == "", open);
    } else if v[0] == '(' {
      ListTrips(v, name == "", open);
    }
  }

  lemma {:induction false} ListTrips(s: string, unnamed: bool, open: seq<bool>)
    requires s != "" && s[0] == '('
    ensures Trips(s, [unnamed] + open) == TripsOnList(ParsedList(s), unnamed, open)
    decreases |s|, 1
  {
    hide TrimLeft, ParsedFrom, Trips;
    var all := [unnamed] + open;
    assert all[0] == unnamed && all[1..] == open;
    StatementTrips(s, all);
    NoTrim(s);
    var r := Parsed(s);
    if r.Ok? && r.statement.name != "" && r.rest != "" && r.rest[0] == '(' {
      ListTrips(r.rest, unnamed, open);
    }
  }

  lemma {:induction false} NoTrim(s: string)
    requires s != "" && s[0] == '('
    ensures TrimLeft(s) == s
  {
  }

  /** Exactly when the parser panics, for every text. */
  lemma {:induction false} PanicsExactly(input: string)
    ensures Parsed(input).Panic? <==> var s := TrimLeft(input); s != "" && s[0] == '(' && Trips(s, [])
  {
    var s := TrimLeft(input);
    if s != "" && s[0] == '(' {
      StatementTrips(s, []);
    }
    hide TrimLeft, Trips;
  }

  // ----- exactly which texts are refused -----

  /** The same pass, for the place at which a text is refused: a statement
      without an equals sign before the next closing parenthesis, or a value
      that is not closed or has a parenthesis opened in it. */
  function Refusal(s: string, open: seq<bool>): Option<string>
    requires s != "" && s[0] == '('
    decreases |s|, 0, 0
  {
    var i := IndexOf(s[1..], '=') + 1;
    if i == |s| || ')' in s[1..i] then Some(s) else RefusalAtValue(TrimLeft(s[i + 1..]), i == 1, open)
  }

  function RefusalAtValue(v: string, unnamed: bool, open: seq<bool>): Option<string>
    decreases |v|, 2, 0
  {
    if v == "" || v[0] == ')' then None
    else if v[0] == '(' then Refusal(v, [unnamed] + open)
    else
      var e := IndexOf(v, ')');
      if e == |v| || '(' in v[..e] then Some(v) else RefusalAfter(TrimLeft(v[e + 1..]), unnamed, open)
  }

  function RefusalAfter(s: string, unnamed: bool, open: seq<bool>): Option<string>
    decreases |s|, 1, |open|
  {
    if open == [] then None
    else if !unnamed && s != "" && s[0] == '(' then Refusal(s, open)
    else RefusalAfter(Closed(s), open[0], open[1..])
  }

  function RefusalOn(r: ParseResult, open: seq<bool>): Option<string> {
    match r
    case Panic => None
    case Error(rest) => Some(rest)
    case Ok(t, rest) => RefusalAfter(rest, t.name == "", open)
  }

  function RefusalOnList(r: ListResult, unnamed: bool, open: seq<bool>): Option<string> {
    match r
    case ListPanic => None
    case ListError(rest) => Some(rest)
    case ListOk(_, rest) => RefusalAfter(Closed(rest), unnamed, open)
  }

  /** A text that ends is not refused, however much is open. */
  lemma {:induction false} EndNeverRefused(unnamed: bool, open: seq<bool>)
    ensures RefusalAfter("", unnamed, open) == None
    decreases |open|
  {
    if open != [] {
      assert Closed("") == "";
      EndNeverRefused(open[0], open[1..]);
    }
  }

  lemma {:induction false} StatementRefused(s: string, open: seq<bool>)
    requires s != "" && s[0] == '('
    ensures Refusal(s, open) == RefusalOn(ParsedFrom(s), open)
    decreases |s|, 0
  {
    hide TrimLeft, IndexOf, ParsedValue, RefusalAfter, RefusalAtValue;
    var i := IndexOf(s[1..], '=') + 1;
    if i < |s| && ')' !in s[1..i] {
      ValueRefused(s[1..i], TrimLeft(s[i + 1..]), s, open);
    }
  }

  lemma {:induction false} ValueRefused(name: string, v: string, s: string, open: seq<bool>)
    requires |v| < |s|
    ensures RefusalAtValue(v, |name| == 0, open) == RefusalOn(ParsedValue(name, v), open)
    decreases |s|, 0, 0
  {
    hide TrimLeft, ParsedList, Refusal, RefusalAfter;
    if v == "" {
      EndNeverRefused(name == "", open);
    } else if v[0] == '(' {
      ListRefused(v, name == "", open);
    } else {
      NotFirst(v, IndexOf(v, ')'));
    }
  }

  lemma {:induction false} NotFirst(v: string, e: nat)
    requires v != "" && v[0] != '(' && e <= |v|
    ensures 0 < e ==> ('(' in v[..e] <==> '(' in v[1..e])
  {
    assert 0 < e ==> v[..e] == [v[0]] + v[1..e];
  }

  lemma {:induction false} ListRefused(s: string, unnamed: bool, open: seq<bool>)
    requires s != "" && s[0] == '('
    ensures Refusal(s, [unnamed] + open) == RefusalOnList(ParsedList(s), unnamed, open)
    decreases |s|, 1
  {
    hide TrimLeft, ParsedFrom, Refusal;
    var all := [unnamed] + open;
    assert all[0] == unnamed && all[1..] == open;
    StatementRefused(s, all);
    NoTrim(s);
    var r := Parsed(s);
    if r.Ok? && r.statement.name != "" && r.rest != "" && r.rest[0] == '(' {
      ListRefused(r.rest, unnamed, open);
    }
  }

  /** Exactly which texts are refused, and where, for every text. */
  lemma {:induction false} RefusesExactly(input: string, rest: string)
    ensures Parsed(input) == Error(rest) <==>
            var s := TrimLeft(input); s != "" && s[0] == '(' && Refusal(s, []) == Some(rest)
  {
    var s := TrimLeft(input);
    if s != "" && s[0] == '(' {
      StatementRefused(s, []);
    }
    hide TrimLeft, Refusal;
  }

  /** A text that does not start with a parenthesis is no statement, and is left. */
  lemma {:induction false} PlainText(input: string)
    requires !Starts(TrimLeft(input), '(')
    ensures Parsed(input) == Ok(Statement("", "", []), TrimLeft(input))
  {
  }

  // ----- the parser without recursion -----

  /** A statement that is open, and its children so far. */
  datatype Frame = Frame(name: string, children: seq<Statement>)

  /** The parser as a machine with a stack of open statements, innermost first.
      At the opening parenthesis of a statement ... */
  function Begin(s: string, open: seq<Frame>): ParseResult
    requires s != "" && s[0] == '('
    decreases |s|, 0, 0
  {
    var i := IndexOf(s[1..], '=') + 1;
    if i == |s| || ')' in s[1..i] then Error(s) else AtValue(TrimLeft(s[i + 1..]), s[1..i], open)
  }

  /** ... behind its equals sign ... */
  function AtValue(v: string, name: string, open: seq<Frame>): ParseResult
    decreases |v|, 2, 0
  {
    if v == "" then End(Statement(name, "", []), "", open)
    else if v[0] == ')' then Panic
    else if v[0] == '(' then Begin(v, [Frame(name, [])] + open)
    else
      var e := IndexOf(v, ')');
      if e == |v| || '(' in v[..e] then Error(v)
      else End(Statement(name, v[..e], []), TrimLeft(v[e + 1..]), open)
  }

  /** ... and behind it.  A statement with a name joins the open one, and may
      have a sibling; one without a name is dropped, and nothing joins after it. */
  function End(t: Statement, s: string, open: seq<Frame>): ParseResult
    decreases |s|, 1, |open|
  {
    if open == [] then Ok(t, s)
    else
      var top := if t.name == "" then open[0] else Frame(open[0].name, open[0].children + [t]);
      if t.name != "" && s != "" && s[0] == '(' then Begin(s, [top] + open[1..])
      else End(Statement(top.name, "", top.children), Closed(s), open[1..])
  }

  function Resumed(r: ParseResult, open: seq<Frame>): ParseResult {
    if r.Ok? then End(r.statement, r.rest, open) else r
  }

  function ListResumed(r: ListResult, name: string, children: seq<Statement>, open: seq<Frame>): ParseResult {
    match r
    case ListPanic => Panic
    case ListError(rest) => Error(rest)
    case ListOk(ts, rest) => End(Statement(name, "", children + ts), Closed(rest), open)
  }

  lemma {:induction false} StatementBegun(s: string, open: seq<Frame>)
    requires s != "" && s[0] == '('
    ensures Begin(s, open) == Resumed(ParsedFrom(s), open)
    decreases |s|, 0
  {
    hide TrimLeft, IndexOf, ParsedValue, End, AtValue;
    var i := IndexOf(s[1..], '=') + 1;
    if i < |s| && ')' !in s[1..i] {
      ValueBegun(s[1..i], TrimLeft(s[i + 1..]), s, open);
    }
  }

  lemma {:induction false} ValueBegun(name: string, v: string, s: string, open: seq<Frame>)
    requires |v| < |s|
    ensures AtValue(v, name, open) == Resumed(ParsedValue(name, v), open)
    decreases |s|, 0, 0
  {
    hide TrimLeft, ParsedList, Begin, End;
    if v != "" && v[0] == '(' {
      ListBegun(v, name, [], open);
      assert ParsedList(v).ListOk? ==> [] + ParsedList(v).statements == ParsedList(v).statements;
    } else if v != "" {
      NotFirst(v, IndexOf(v, ')'));
    }
  }

  lemma {:induction false} ListBegun(s: string, name: string, children: seq<Statement>, open: seq<Frame>)
    requires s != "" && s[0] == '('
    ensures Begin(s, [Frame(name, children)] + open) == ListResumed(ParsedList(s), name, children, open)
    decreases |s|, 1
  {
    hide TrimLeft, ParsedFrom, Begin;
    var all := [Frame(name, children)] + open;
    assert all[0] == Frame(name, children) && all[1..] == open;
    StatementBegun(s, all);
    NoTrim(s);
    var r := Parsed(s);
    if r.Ok? && r.statement.name != "" {
      var more := children + [r.statement];
      if r.rest != "" && r.rest[0] == '(' {
        ListBegun(r.rest, name, more, open);
        MoreChildren(children, r.statement, ParsedList(r.rest));
      } else {
        assert more + [] == more && children + ([r.statement] + []) == more;
      }
    } else {
      assert children + [] == children;
    }
  }

  lemma {:induction false} MoreChildren(children: seq<Statement>, t: Statement, r: ListResult)
    ensures r.ListOk? ==> children + [t] + r.statements == children + Prepend([t], r).statements
  {
  }

  /** The recursive parser and the machine agree on every text: the same
      statement and remainder, the same refusal, the same panic. */
  lemma {:induction false} ParsedByMachine(input: string)
    ensures var s := TrimLeft(input); s != "" && s[0] == '(' ==> Parsed(input) == Begin(s, [])
  {
    var s := TrimLeft(input);
    if s != "" && s[0] == '(' {
      StatementBegun(s, []);
    }
    hide TrimLeft, Begin;
  }

  // ----- round trip -----

  predicate NameOk(n: string) { '=' !in n && ')' !in n }

  predicate ValueOk(v: string) { v != "" && '(' !in v && ')' !in v && !IsSpace(v[0]) }

  /** Names and values that the grammar can tell apart: no separators in names,
      no parentheses and no leading space in values, a value or children but
      not both, and a name for every child. */
  predicate Clean(t: Statement)
    decreases t, 1
  {
    && NameOk(t.name)
    && (t.value != "" ==> ValueOk(t.value) && t.statements == [])
    && CleanAll(t.statements)
  }

  predicate CleanAll(ts: seq<Statement>)
    decreases ts, 0
  {
    ts == [] || (ts[0].name != "" && Clean(ts[0]) && CleanAll(ts[1..]))
  }

  /** Somewhere there is a statement with neither value nor children. */
  predicate HasEmpty(t: Statement)
    decreases t, 1
  {
    t.value == "" && (t.statements == [] || AnyEmpty(t.statements))
  }

  predicate AnyEmpty(ts: seq<Statement>)
    decreases ts, 0
  {
    ts != [] && (HasEmpty(ts[0]) || AnyEmpty(ts[1..]))
  }

  /** The front of a printed statement: name and equals sign are split off. */
  lemma {:induction false} HeadParsed(prefix: string, name: string, tail: string)
    requires AllSpace(prefix) && NameOk(name)
    ensures Parsed(prefix + "(" + name + "=" + tail) == ParsedValue(name, TrimLeft(tail))
  {
    var s := "(" + name + "=" + tail;
    hide TrimLeft, IndexOf, ParsedValue;
    Opened(prefix, name, tail);
    var i := |name| + 1;
    assert s[1..i] == name && s[i + 1..] == tail;
  }

  lemma {:induction false} TrimToParen(prefix: string, s: string)
    requires AllSpace(prefix) && s != "" && (s[0] == '(' || s[0] == ')')
    ensures TrimLeft(prefix + s) == s && TrimLeft(s) == s
  {
    assert !IsSpace(s[0]);
    hide AllSpace, IsSpace;
    assert TrimLeft(s) == s;
    TrimLeftSkips(prefix, s);
    hide TrimLeft;
  }

  lemma {:induction false} Opened(prefix: string, name: string, tail: string)
    requires AllSpace(prefix) && NameOk(name)
    ensures var s := "(" + name + "=" + tail;
            TrimLeft(prefix + "(" + name + "=" + tail) == s && IndexOf(s[1..], '=') == |name|
  {
    hide TrimLeft, IndexOf;
    var s := "(" + name + "=" + tail;
    assert prefix + "(" + name + "=" + tail == prefix + s;
    TrimToParen(prefix, s);
    assert s[1..] == name + "=" + tail;
    IndexAfter(name, '=', tail);
  }

  lemma {:induction false} IndexAfter(a: string, c: char, b: string)
    requires c !in a
    ensures IndexOf(a + [c] + b, c) == |a|
  {
    var s := a + [c] + b;
    var i := IndexOf(s, c);
    assert forall k :: 0 <= k < |a| ==> s[k] == a[k];
    assert s[|a|] == c;
    assert forall k :: 0 <= k < i ==> s[k] == s[..i][k];
  }

  /** A printed value is read back. */
  lemma {:induction false} ValueParsed(name: string, value: string, rest: string)
    requires ValueOk(value)
    ensures ParsedValue(name, TrimLeft(value + ")" + rest)) == Ok(Statement(name, value, []), TrimLeft(rest))
  {
    hide TrimLeft, IndexOf, ParsedList, ValueOk;
    ValueText(value, rest);
  }

  lemma {:induction false} ValueText(value: string, rest: string)
    requires ValueOk(value)
    ensures var s := value + ")" + rest;
            && TrimLeft(s) == s && s[0] != '(' && value != "" && IndexOf(s, ')') == |value|
            && s[..|value|] == value && s[|value| + 1..] == rest && '(' !in s[1..|value|]
  {
    hide IndexOf;
    var s := value + ")" + rest;
    assert s[0] == value[0] && value[0] in value;
    IndexAfter(value, ')', rest);
    assert s[..|value|] == value;
    assert s[1..|value|] == value[1..];
  }

  /** A statement without value and children is not read back: it panics. */
  lemma {:induction false} EmptyPanics(name: string, rest: string)
    ensures ParsedValue(name, TrimLeft(")" + rest)) == Panic
  {
    hide TrimLeft, IndexOf, ParsedList;
    var s := ")" + rest;
    assert "" + s == s;
    TrimToParen("", s);
    IndexAfter("", ')', rest);
    assert "" + ")" + rest == s;
  }

  /** Behind the equals sign of a printed statement. */
  function PrintTail(t: Statement, prefix: string, indent: string): string {
    t.value + (if t.value == "" then PrintAll(t.statements, prefix + indent, indent) else "") + ")"
  }

  lemma {:induction false} SpaceConcat(a: string, b: string)
    requires AllSpace(a) && AllSpace(b)
    ensures AllSpace(a + b)
  {
  }

  /** Parsing what was printed, whatever follows it: the statement comes back,
      or the parser panics on an empty one. */
  lemma {:induction false} PrintParsed(t: Statement, prefix: string, indent: string, rest: string)
    requires Clean(t) && AllSpace(prefix) && AllSpace(indent)
    ensures Parsed(Print(t, prefix, indent) + rest) == if HasEmpty(t) then Panic else Ok(t, TrimLeft(rest))
    decreases t, 1
  {
    hide Parsed, ParsedValue, TrimLeft, Print, PrintAll;
    var tail := PrintTail(t, prefix, indent) + rest;
    PrintHead(t, prefix, indent, rest);
    HeadParsed(prefix, t.name, tail);
    if t.value != "" {
      assert tail == t.value + ")" + rest;
      ValueParsed(t.name, t.value, rest);
    } else if t.statements == [] {
      assert PrintAll([], prefix + indent, indent) == "" by { PrintNone(prefix + indent, indent); }
      assert tail == ")" + rest;
      EmptyPanics(t.name, rest);
    } else {
      SpaceConcat(prefix, indent);
      ChildrenParsed(t, prefix, indent, rest, tail);
    }
  }

  lemma {:induction false} PrintNone(prefix: string, indent: string)
    ensures PrintAll([], prefix, indent) == ""
  {
  }

  lemma {:induction false} PrintHead(t: Statement, prefix: string, indent: string, rest: string)
    ensures Print(t, prefix, indent) + rest == prefix + "(" + t.name + "=" + (PrintTail(t, prefix, indent) + rest)
  {
    var kids := if t.value == "" then PrintAll(t.statements, prefix + indent, indent) else "";
    assert Print(t, prefix, indent) == prefix + "(" + t.name + "=" + t.value + kids + ")";
  }

  lemma {:induction false} ChildrenParsed(t: Statement, prefix: string, indent: string, rest: string, tail: string)
    requires t.value == "" && t.statements != [] && CleanAll(t.statements)
    requires AllSpace(prefix + indent) && AllSpace(indent) && tail == PrintTail(t, prefix, indent) + rest
    ensures ParsedValue(t.name, TrimLeft(tail)) == if AnyEmpty(t.statements) then Panic else Ok(t, TrimLeft(rest))
    decreases t, 0
  {
    hide Parsed, TrimLeft, PrintAll, ParsedList, AnyEmpty;
    var kids := PrintAll(t.statements, prefix + indent, indent);
    assert tail == kids + (")" + rest);
    assert "" + (")" + rest) == ")" + rest;
    TrimToParen("", ")" + rest);
    ListParsed(t.statements, prefix + indent, indent, ")" + rest);
    ClosedParen(rest);
  }

  lemma {:induction false} ClosedParen(rest: string)
    ensures Closed(")" + rest) == TrimLeft(rest)
  {
    assert "" + (")" + rest) == ")" + rest;
    TrimToParen("", ")" + rest);
    hide TrimLeft;
    assert (")" + rest)[1..] == rest;
  }

  /** Leading white space does not matter to the parser. */
  lemma {:induction false} ParsedTrimmed(s: string)
    ensures Parsed(TrimLeft(s)) == Parsed(s)
  {
    hide ParsedFrom;
    TrimTwice(s);
  }

  lemma {:induction false} TrimTwice(s: string)
    ensures TrimLeft(TrimLeft(s)) == TrimLeft(s)
  {
  }

  lemma {:induction false} ListStep(s: string)
    requires s != "" && s[0] == '('
    ensures Parsed(s) == Panic ==> ParsedList(s) == ListPanic
    ensures Parsed(s).Ok? && Parsed(s).statement.name != "" ==>
              ParsedList(s) == Prepend([Parsed(s).statement], ParsedList(Parsed(s).rest))
  {
    hide Parsed, TrimLeft;
  }

  lemma {:induction false} PrintStarts(t: Statement, prefix: string, indent: string, rest: string)
    requires AllSpace(prefix)
    ensures var s := TrimLeft(Print(t, prefix, indent) + rest); s != "" && s[0] == '('
  {
    hide TrimLeft;
    PrintHead(t, prefix, indent, rest);
    var s := "(" + t.name + "=" + (PrintTail(t, prefix, indent) + rest);
    assert prefix + "(" + t.name + "=" + (PrintTail(t, prefix, indent) + rest) == prefix + s;
    TrimToParen(prefix, s);
  }

  /** Printed children, in front of anything that is not one more child. */
  lemma {:induction false} ListParsed(ts: seq<Statement>, prefix: string, indent: string, close: string)
    requires CleanAll(ts) && AllSpace(prefix) && AllSpace(indent)
    requires !Starts(TrimLeft(close), '(')
    ensures var s := TrimLeft(PrintAll(ts, prefix, indent) + close);
            && (ts != [] ==> Starts(s, '('))
            && ParsedList(s) == if AnyEmpty(ts) then ListPanic else ListOk(ts, TrimLeft(close))
    decreases ts, 0, 1
  {
    hide TrimLeft, ParsedList, Print;
    if ts == [] {
      assert PrintAll(ts, prefix, indent) + close == close;
      NoChildren(TrimLeft(close));
    } else {
      var after := PrintAll(ts[1..], prefix, indent) + close;
      var all := PrintAll(ts, prefix, indent) + close;
      assert [ts[0]] + ts[1..] == ts;
      assert all == Print(ts[0], prefix, indent) + after;
      ListParsed(ts[1..], prefix, indent, close);
      FirstParsed(ts, prefix, indent, all, after);
    }
  }

  lemma {:induction false} NoChildren(s: string)
    requires !Starts(s, '(')
    ensures ParsedList(s) == ListOk([], s)
  {
  }

  lemma {:induction false} FirstParsed(ts: seq<Statement>, prefix: string, indent: string, all: string, after: string)
    requires ts != [] && CleanAll(ts) && AllSpace(prefix) && AllSpace(indent)
    requires all == Print(ts[0], prefix, indent) + after
    ensures var s := TrimLeft(all);
            && s != "" && s[0] == '('
            && ParsedList(s) == if HasEmpty(ts[0]) then ListPanic else Prepend([ts[0]], ParsedList(TrimLeft(after)))
    decreases ts, 0, 0
  {
    hide Parsed, ParsedList, TrimLeft, Print, HasEmpty, Clean;
    PrintParsed(ts[0], prefix, indent, after);
    PrintStarts(ts[0], prefix, indent, after);
    ParsedTrimmed(all);
    ListStep(TrimLeft(all));
  }

  // ----- texts that stop early -----

  /** A text that ends behind an equals sign is a statement without value. */
  lemma {:induction false} EndsBehindEquals(prefix: string, name: string, space: string)
    requires AllSpace(prefix) && NameOk(name) && AllSpace(space)
    ensures Parsed(prefix + "(" + name + "=" + space) == Ok(Statement(name, "", []), "")
  {
    hide Parsed, TrimLeft;
    HeadParsed(prefix, name, space);
    assert space + "" == space;
    TrimLeftSkips(space, "");
    assert TrimLeft("") == "" by { TrimNothing(); }
  }

  lemma {:induction false} TrimNothing()
    ensures TrimLeft("") == ""
  {
  }

  /** Children whose list is not closed are accepted all the same: what is
      behind them is left, and an empty child still panics. */
  lemma {:induction false} UnclosedParsed(prefix: string, name: string, ts: seq<Statement>, indent: string,
                                          behind: string)
    requires AllSpace(prefix) && NameOk(name) && AllSpace(indent) && ts != [] && CleanAll(ts)
    requires !Starts(TrimLeft(behind), '(') && !Starts(TrimLeft(behind), ')')
    ensures Parsed(prefix + "(" + name + "=" + (PrintAll(ts, indent, indent) + behind))
         == if AnyEmpty(ts) then Panic else Ok(Statement(name, "", ts), TrimLeft(behind))
  {
    hide Parsed, ParsedList, TrimLeft, PrintAll, AnyEmpty, CleanAll;
    HeadParsed(prefix, name, PrintAll(ts, indent, indent) + behind);
    ListParsed(ts, indent, indent, behind);
    TrimTwice(behind);
  }

  // ----- what comes out of the parser is clean -----

  lemma {:induction false} ParsedClean(input: string)
    ensures Parsed(input).Ok? ==> Clean(Parsed(input).statement)
    decreases |input|, 1
  {
    hide ParsedFrom, Clean;
    FromClean(TrimLeft(input));
  }

  lemma {:induction false} FromClean(s: string)
    ensures ParsedFrom(s).Ok? ==> Clean(ParsedFrom(s).statement)
    decreases |s|, 0
  {
    hide TrimLeft, ParsedValue;
    if s != "" && s[0] == '(' {
      var i := IndexOf(s[1..], '=') + 1;
      if i < |s| && ')' !in s[1..i] {
        assert s[1..i] == s[1..][..i - 1];
        ValueClean(s[1..i], TrimLeft(s[i + 1..]));
      }
    }
  }

  lemma {:induction false} ValueClean(name: string, s: string)
    requires NameOk(name) && (s != "" ==> !IsSpace(s[0]))
    ensures ParsedValue(name, s).Ok? ==> Clean(ParsedValue(name, s).statement)
    decreases |s|, 3
  {
    hide TrimLeft, ParsedList;
    if s != "" && s[0] != '(' {
      var i := IndexOf(s, ')');
      if 0 < i < |s| && '(' !in s[1..i] {
        assert s[..i] == [s[0]] + s[1..i];
      }
    } else if s != "" {
      ListClean(s);
    }
  }

  lemma {:induction false} ListClean(s: string)
    ensures ParsedList(s).ListOk? ==> CleanAll(ParsedList(s).statements)
    decreases |s|, 2
  {
    hide Parsed, Clean;
    if s != "" && s[0] == '(' {
      ParsedClean(s);
      var r := Parsed(s);
      if r.Ok? && r.statement.name != "" {
        ListClean(r.rest);
        var more := ParsedList(r.rest);
        assert more.ListOk? ==> ([r.statement] + more.statements)[1..] == more.statements;
      }
    }
  }

  /** Exactly the clean statements without an empty one anywhere survive
      printing and parsing. */
  lemma {:induction false} RoundTrip(t: Statement)
    ensures Parsed(Print(t, "", "")) == Ok(t, "") <==> Clean(t) && !HasEmpty(t)
  {
    hide Parsed, Print, Clean, HasEmpty;
    if Clean(t) {
      PrintParsed(t, "", "", "");
      assert Print(t, "", "") + "" == Print(t, "", "");
    } else {
      ParsedClean(Print(t, "", ""));
    }
  }

  const HARMLESS := "(X=a=)"

  lemma {:induction false} HarmlessText()
    ensures EmptyValueAt(HARMLESS, 4)
  {
    assert HARMLESS[5..][0] == ')' && !IsSpace(')');
  }

  lemma {:induction false} HarmlessPrint()
    ensures var t := Statement("X", "a=", []); Clean(t) && !HasEmpty(t) && Print(t, "", "") == HARMLESS
  {
    assert !IsSpace('a');
    hide IsSpace;
  }

  /** An empty value inside a value does no harm. */
  lemma {:induction false} HarmlessExample()
    ensures Parsed(HARMLESS) == Ok(Statement("X", "a=", []), "") && !NoEmptyValue(HARMLESS)
  {
    HarmlessText();
    HarmlessPrint();
    hide Parsed, Print, Clean, HasEmpty, EmptyValueAt;
    PrintParsed(Statement("X", "a=", []), "", "", "");
    assert HARMLESS + "" == HARMLESS;
  }

  /** The text "(X=)". */
  lemma {:induction false} EmptyExample()
    ensures Parsed("(X=)") == Panic
  {
    var t := Statement("X", "", []);
    assert Clean(t) && HasEmpty(t) && AllSpace("");
    assert PrintAll([], "", "") == "";
    assert Print(t, "", "") == "(X=)";
    hide Parsed, Print, Clean, HasEmpty;
    PrintParsed(t, "", "", "");
    assert "(X=)" + "" == "(X=)";
  }
}
