/** Old-style data source names, user/password@connect (dsn/dsn.go). */
module Dsn {
  import opened Decimals

  const QUOTE := '\\'

  // ----- unquote -----

  function Unescape(c: char): char {
    if c == 'n' then '\n' else if c == 'r' then '\r' else if c == 't' then '\t' else c
  }

  /** What the loop writes for the rest of a text. */
  function UnquotedFrom(s: string, quoted: bool): string {
    if s == "" then ""
    else if s[0] == QUOTE then UnquotedFrom(s[1..], true)
    else [if quoted then Unescape(s[0]) else s[0]] + UnquotedFrom(s[1..], false)
  }

  function Unquoted(s: string): string { if QUOTE !in s then s else UnquotedFrom(s, false) }

  lemma {:induction false} UnquotedStep(s: string, i: nat, quoted: bool, r: string)
    requires i < |s|
    ensures s[i] == QUOTE ==> UnquotedFrom(s[i..], quoted) == UnquotedFrom(s[i + 1..], true)
    ensures s[i] != QUOTE ==>
      r + UnquotedFrom(s[i..], quoted) ==
        r + [if quoted then Unescape(s[i]) else s[i]] + UnquotedFrom(s[i + 1..], false)
  {
    assert s[i..][1..] == s[i + 1..];
  }

  /** `unquote`. */
  method Unquote(s: string) returns (r: string)
    ensures r == Unquoted(s)
  {
    if QUOTE !in s {
      return s;
    }
    r := "";
    var quoted := false;
    assert s[0..] == s && s[|s|..] == "";
    for i := 0 to |s|
      invariant r + UnquotedFrom(s[i..], quoted) == UnquotedFrom(s, false)
    {
      var c := s[i];
      UnquotedStep(s, i, quoted, r);
      if c == QUOTE {
        if !quoted {
          quoted := true;
        }
        continue;
      }
      if !quoted {
        r := r + [c];
        continue;
      }
      quoted := false;
      match c {
        case 'n' => r := r + ['\n'];
        case 'r' => r := r + ['\r'];
        case 't' => r := r + ['\t'];
        case _ => r := r + [c];
      }
    }
  }

  // ----- splitQuoted -----

  /** A separator that no quoting character stands before. */
  predicate Splits(s: string, i: nat, sep: char)
    requires i < |s|
  {
    s[i] == sep && (i == 0 || s[i - 1] != QUOTE)
  }

  /** `splitQuoted`: one part, or two around the first separator that splits. */
  method SplitQuoted(s: string, sep: char) returns (found: bool, at: nat)
    ensures found ==> at < |s| && Splits(s, at, sep) && forall k :: 0 <= k < at ==> !Splits(s, k, sep)
    ensures !found ==> forall k :: 0 <= k < |s| ==> !Splits(s, k, sep)
  {
    var off := 0;
    while true
      invariant off <= |s| && forall k :: 0 <= k < off ==> !Splits(s, k, sep)
      decreases |s| - off
    {
      var i := IndexOf(s[off..], sep);
      NextIndex(s, off, i, sep);
      if i == |s[off..]| {
        return false, 0;
      }
      off := off + i;
      if off == 0 || s[off - 1] != QUOTE {
        return true, off;
      }
      off := off + 1;
    }
  }

  lemma {:induction false} NextIndex(s: string, off: nat, i: nat, sep: char)
    requires off <= |s| && i == IndexOf(s[off..], sep)
    ensures off + i <= |s| && (off + i < |s| ==> s[off + i] == sep)
    ensures forall k :: off <= k < off + i ==> s[k] != sep
  {
    var t := s[off..];
    forall k | off <= k < off + i ensures s[k] != sep {
      assert t[..i][k - off] == s[k];
    }
  }

  /** The parts: the whole text when nothing splits it. */
  function FirstSplit(s: string, sep: char, i: nat): (r: nat)
    requires i <= |s|
    ensures i <= r <= |s| && (r < |s| ==> Splits(s, r, sep)) && forall k :: i <= k < r ==> !Splits(s, k, sep)
    decreases |s| - i
  {
    if i == |s| || Splits(s, i, sep) then i else FirstSplit(s, sep, i + 1)
  }

  // ----- parseUserPassw -----

  datatype Login = Login(user: string, password: string, connect: string)

  predicate IsAlnum(c: char) { 'a' <= c <= 'z' || 'A' <= c <= 'Z' || '0' <= c <= '9' }

  function Index(s: string, t: string): (i: nat)
    ensures i <= |s|
    ensures i < |s| ==> |t| <= |s| - i && s[i..i + |t|] == t
  {
    if |s| > 0 && t <= s then 0
    else if s == "" then 0
    else
      var j := Index(s[1..], t);
      assert j < |s[1..]| ==> s[1..][j..j + |t|] == s[1 + j..1 + j + |t|];
      1 + j
  }

  /** Letters and digits, then "://": a whole connect string of its own. */
  predicate IsUrl(d: string) {
    var i := Index(d, "://");
    i < |d| && forall k :: 0 <= k < i ==> IsAlnum(d[k])
  }

  function Upper(s: string): (r: string)
    ensures |r| == |s|
  {
    seq(|s|, i requires 0 <= i < |s| => if 'a' <= s[i] <= 'z' then (s[i] as int - 32) as char else s[i])
  }

  function UserOf(credentials: string): string { Unquoted(credentials[..FirstSplit(credentials, '/', 0)]) }

  function PasswordOf(credentials: string): string {
    var slash := FirstSplit(credentials, '/', 0);
    if slash < |credentials| then Unquoted(credentials[slash + 1..]) else ""
  }

  function ParseLogin(d: string): Login {
    if IsUrl(d) then Login("", "", d)
    else
      var at := FirstSplit(d, '@', 0);
      var front := d[..at];
      var asSys := if at == |d| then Index(Upper(d), " AS SYS") else |front|;
      var credentials, extra := front[..asSys], front[asSys..];
      if at == |d| && FirstSplit(credentials, '/', 0) == |credentials| then Login("", "", d + Unquoted(extra))
      else
        var connect := if at == |d| then Unquoted(extra) else Unquoted(d[at + 1..] + extra);
        Login(UserOf(credentials), PasswordOf(credentials), connect)
  }

  lemma {:induction false} FirstSplitIs(s: string, sep: char, at: nat)
    requires at <= |s| && (at < |s| ==> Splits(s, at, sep)) && forall k :: 0 <= k < at ==> !Splits(s, k, sep)
    ensures FirstSplit(s, sep, 0) == at
  {
  }

  /** `parseUserPassw`. */
  method ParseUserPassw(d: string) returns (l: Login)
    ensures l == ParseLogin(d)
  {
    hide Index, Upper, Unquoted, FirstSplit;
    if IsUrl(d) {
      return Login("", "", d);
    }
    var two, at := SplitQuoted(d, '@');
    FirstSplitIs(d, '@', if two then at else |d|);
    var credentials, extra := if two then d[..at] else d, "";
    if !two {
      var i := Index(Upper(credentials), " AS SYS");
      if i < |credentials| {
        credentials, extra := credentials[..i], credentials[i..];
      }
    }
    var hasPassword, slash := SplitQuoted(credentials, '/');
    FirstSplitIs(credentials, '/', if hasPassword then slash else |credentials|);
    var plain := Unquote(extra);
    assert !two ==> d[..|d|] == d && d[|d|..] == "";
    assert two ==> d[..at][..at] == d[..at] && d[..at][at..] == "";
    if !two && !hasPassword {
      return Login("", "", d + plain);
    }
    var user := Unquote(if hasPassword then credentials[..slash] else credentials);
    assert credentials[..|credentials|] == credentials;
    var password := "";
    if hasPassword {
      password := Unquote(credentials[slash + 1..]);
    }
    if !two {
      return Login(user, password, plain);
    }
    var connect := Unquote(d[at + 1..] + extra);
    l := Login(user, password, connect);
  }

  // ----- round trip -----

  /** A backslash before each separator. */
  function Escape(s: string): string {
    if s == "" then "" else (if s[0] in ['/', '@'] then [QUOTE, s[0]] else [s[0]]) + Escape(s[1..])
  }

  /** Separators are quoted, and the text does not end in a quoting character. */
  ghost predicate IsQuoted(s: string) {
    && (forall k :: 0 <= k < |s| && s[k] in ['/', '@'] ==> k > 0 && s[k - 1] == QUOTE)
    && (s != "" ==> s[|s| - 1] != QUOTE)
  }

  lemma {:induction false} EscapeQuotes(s: string)
    requires QUOTE !in s
    ensures IsQuoted(Escape(s))
  {
    if s != "" {
      EscapeQuotes(s[1..]);
      var head := if s[0] in ['/', '@'] then [QUOTE, s[0]] else [s[0]];
      var tail := Escape(s[1..]);
      assert s[0] != QUOTE;
      forall k | 0 <= k < |head + tail| && (head + tail)[k] in ['/', '@']
        ensures k > 0 && (head + tail)[k - 1] == QUOTE
      {
        if k >= |head| {
          assert tail[k - |head|] == (head + tail)[k];
        }
      }
    }
  }

  lemma {:induction false} UnquoteEscape(s: string)
    requires QUOTE !in s
    ensures UnquotedFrom(Escape(s), false) == s
  {
    if s != "" {
      UnquoteEscape(s[1..]);
      var tail := Escape(s[1..]);
      assert s[0] != QUOTE;
      if s[0] in ['/', '@'] {
        assert Escape(s)[1..] == [s[0]] + tail;
        assert ([s[0]] + tail)[1..] == tail;
      } else {
        assert Escape(s)[1..] == tail;
      }
      assert s == [s[0]] + s[1..];
    }
  }

  lemma {:induction false} PlainUnquoted(s: string)
    requires QUOTE !in s
    ensures UnquotedFrom(s, false) == s
  {
    if s != "" {
      PlainUnquoted(s[1..]);
      assert s == [s[0]] + s[1..];
    }
  }

  lemma {:induction false} UnquotedEscape(s: string)
    requires QUOTE !in s
    ensures Unquoted(Escape(s)) == s
  {
    UnquoteEscape(s);
    if QUOTE !in Escape(s) {
      PlainUnquoted(Escape(s));
    }
  }

  function Join(l: Login): string { Escape(l.user) + "/" + Escape(l.password) + "@" + l.connect }

  /** The first unquoted separator after a quoted text is the one that was put there. */
  lemma {:induction false} SplitsThere(a: string, sep: char, b: string)
    requires IsQuoted(a) && sep in ['/', '@']
    ensures FirstSplit(a + [sep] + b, sep, 0) == |a|
  {
    var s := a + [sep] + b;
    assert forall k :: 0 <= k < |a| ==> s[k] == a[k];
    assert Splits(s, |a|, sep);
    forall k | 0 <= k < |a| ensures !Splits(s, k, sep) {
      assert s[k] == sep ==> a[k - 1] == QUOTE;
    }
    FirstSplitIs(s, sep, |a|);
  }

  lemma {:induction false} QuotedLogin(user: string, password: string)
    requires QUOTE !in user && QUOTE !in password
    ensures var a, b := Escape(user), Escape(password);
            var front := a + "/" + b;
            && (forall k :: 0 <= k < |front| && front[k] == '@' ==> k > 0 && front[k - 1] == QUOTE)
            && front[|front| - 1] != QUOTE
  {
    EscapeQuotes(user);
    EscapeQuotes(password);
    var a, b := Escape(user), Escape(password);
    var front := a + "/" + b;
    assert b == "" ==> front[|front| - 1] == '/';
    forall k | 0 <= k < |front| && front[k] == '@' ensures k > 0 && front[k - 1] == QUOTE {
      if k < |a| {
        assert a[k] == '@';
      } else {
        assert k > |a| && b[k - |a| - 1] == '@';
      }
    }
  }

  /** Nothing that was joined looks like a URL: the first "://" can only stand
      behind the slash after the user. */
  lemma {:induction false} JoinedIsNoUrl(a: string, b: string, tail: string)
    requires IsQuoted(a) && IsQuoted(b) && (tail != "" ==> tail[0] != '/')
    ensures !IsUrl(a + "/" + b + tail)
  {
    var d := a + "/" + b + tail;
    var n := |a|;
    var i := Index(d, "://");
    assert d[n] == '/';
    if i < |d| {
      assert d[i] == d[i..i + 3][0] == ':' && d[i + 1] == d[i..i + 3][1] == '/' && d[i + 2] == d[i..i + 3][2] == '/';
      if i < n {
        NotBefore(a, b, tail, i);
      }
    }
  }

  lemma {:induction false} NotBefore(a: string, b: string, tail: string, i: nat)
    requires IsQuoted(a) && IsQuoted(b) && (tail != "" ==> tail[0] != '/')
    requires var d := a + "/" + b + tail; i < |a| && i + 2 < |d|
    ensures var d := a + "/" + b + tail; d[i] != ':' || d[i + 1] != '/' || d[i + 2] != '/'
  {
    var d := a + "/" + b + tail;
    var n := |a|;
    if i + 1 < n {
      assert d[i] == a[i] && d[i + 1] == a[i + 1];
    } else {
      assert d[n + 1] == if b == "" then tail[0] else b[0];
    }
  }

  /** Joining and parsing is the identity on logins without backslashes,
      whatever separators and "://" they hold. */
  lemma {:induction false} JoinParsed(l: Login)
    requires QUOTE !in l.user && QUOTE !in l.password && QUOTE !in l.connect
    ensures ParseLogin(Join(l)) == l
  {
    hide IsUrl, FirstSplit, Escape, Unquoted, Index, Upper, UserOf, PasswordOf;
    var a, b := Escape(l.user), Escape(l.password);
    var front, d := a + "/" + b, Join(l);
    assert d == front + ("@" + l.connect);
    EscapeQuotes(l.user);
    EscapeQuotes(l.password);
    JoinedIsNoUrl(a, b, "@" + l.connect);
    QuotedLogin(l.user, l.password);
    AtSplits(front, l.connect);
    CredentialsJoined(l.user, l.password);
    PlainText(l.connect);
    var at := |front|;
    assert d[..at] == front && d[at + 1..] == l.connect && front[..at] == front && front[at..] == "";
    assert l.connect + "" == l.connect;
  }

  lemma {:induction false} PlainText(s: string)
    requires QUOTE !in s
    ensures Unquoted(s) == s
  {
  }

  lemma {:induction false} CredentialsJoined(user: string, password: string)
    requires QUOTE !in user && QUOTE !in password
    ensures var front := Escape(user) + "/" + Escape(password); UserOf(front) == user && PasswordOf(front) == password
  {
    hide FirstSplit, Escape, Unquoted;
    var a, b := Escape(user), Escape(password);
    var front := a + "/" + b;
    EscapeQuotes(user);
    SplitsThere(a, '/', b);
    UnquotedEscape(user);
    UnquotedEscape(password);
    assert front[..|a|] == a && front[|a| + 1..] == b;
  }

  lemma {:induction false} AtSplits(front: string, connect: string)
    requires forall k :: 0 <= k < |front| && front[k] == '@' ==> k > 0 && front[k - 1] == QUOTE
    requires front != "" ==> front[|front| - 1] != QUOTE
    ensures FirstSplit(front + ("@" + connect), '@', 0) == |front|
  {
    var s := front + ("@" + connect);
    assert forall k :: 0 <= k < |front| ==> s[k] == front[k];
    assert Splits(s, |front|, '@');
    FirstSplitIs(s, '@', |front|);
  }

  // ----- nothing else can be said -----

  lemma {:induction false} UnquotedIsPlain(s: string, quoted: bool)
    ensures QUOTE !in UnquotedFrom(s, quoted)
  {
    if s != "" {
      UnquotedIsPlain(s[1..], true);
      UnquotedIsPlain(s[1..], false);
    }
  }

  lemma {:induction false} ParsedIsPlain(d: string)
    ensures QUOTE !in ParseLogin(d).user && QUOTE !in ParseLogin(d).password
  {
    hide IsUrl, FirstSplit, Index, Upper, UserOf, PasswordOf;
    forall c: string ensures QUOTE !in UserOf(c) && QUOTE !in PasswordOf(c) {
      CredentialsPlain(c);
    }
  }

  lemma {:induction false} CredentialsPlain(c: string)
    ensures QUOTE !in UserOf(c) && QUOTE !in PasswordOf(c)
  {
    hide FirstSplit;
    var slash := FirstSplit(c, '/', 0);
    UnquotedIsPlain(c[..slash], false);
    if slash < |c| {
      UnquotedIsPlain(c[slash + 1..], false);
    }
  }

  function AsSys(d: string): (i: nat)
    ensures i <= |d|
  {
    Index(Upper(d), " AS SYS")
  }

  /** Neither user nor password, but a connect string alone. */
  predicate IsBare(d: string) {
    !IsUrl(d) && FirstSplit(d, '@', 0) == |d| && FirstSplit(d[..AsSys(d)], '/', 0) == AsSys(d)
  }

  /** A connect string that can be written down as it stands: a URL, or a text
      that nothing splits, with what follows " AS SYS" in it said again. */
  ghost predicate Standalone(c: string) {
    IsUrl(c) || exists m :: 0 <= m <= |c| && IsBare(c[..m]) && c[m..] == Unquoted(c[..m][AsSys(c[..m])..])
  }

  lemma {:induction false} BareParsed(d: string)
    ensures IsUrl(d) ==> ParseLogin(d) == Login("", "", d)
    ensures IsBare(d) ==> ParseLogin(d) == Login("", "", d + Unquoted(d[AsSys(d)..]))
    ensures !IsUrl(d) && !IsBare(d) ==> QUOTE !in ParseLogin(d).connect
  {
    hide IsUrl, FirstSplit, Index, Upper, UserOf, PasswordOf, Unquoted;
    assert d[..|d|] == d;
    forall t: string ensures QUOTE !in Unquoted(t) {
      UnquotedHasNone(t);
    }
  }

  lemma {:induction false} UnquotedHasNone(t: string)
    ensures QUOTE !in Unquoted(t)
  {
    UnquotedIsPlain(t, false);
  }

  lemma {:induction false} StandaloneParsed(d: string)
    requires IsUrl(d) || IsBare(d)
    ensures Standalone(ParseLogin(d).connect)
  {
    hide ParseLogin, IsUrl, IsBare, AsSys, Unquoted;
    BareParsed(d);
    if !IsUrl(d) {
      var c := ParseLogin(d).connect;
      assert c[..|d|] == d && c[|d|..] == Unquoted(d[AsSys(d)..]);
    }
  }

  lemma {:induction false} StandaloneWritten(c: string) returns (d: string)
    requires Standalone(c)
    ensures ParseLogin(d) == Login("", "", c)
  {
    hide ParseLogin, IsUrl, IsBare, AsSys, Unquoted;
    if IsUrl(c) {
      d := c;
    } else {
      var m :| 0 <= m <= |c| && IsBare(c[..m]) && c[m..] == Unquoted(c[..m][AsSys(c[..m])..]);
      d := c[..m];
      assert c == d + c[m..];
    }
    BareParsed(d);
  }

  /** A login can be written down, quoted in whatever way, exactly when it holds
      no backslash, or is a connect string that stands alone. */
  lemma {:induction false} Expressible(l: Login)
    ensures (exists d :: ParseLogin(d) == l) <==>
            || (QUOTE !in l.user && QUOTE !in l.password && QUOTE !in l.connect)
            || (l.user == "" && l.password == "" && Standalone(l.connect))
  {
    hide ParseLogin, Join, Standalone, IsUrl, IsBare;
    if QUOTE !in l.user && QUOTE !in l.password && QUOTE !in l.connect {
      JoinParsed(l);
    } else if l.user == "" && l.password == "" && Standalone(l.connect) {
      var d := StandaloneWritten(l.connect);
    } else {
      forall d ensures ParseLogin(d) != l {
        ParsedIsPlain(d);
        BareParsed(d);
        if IsUrl(d) || IsBare(d) {
          StandaloneParsed(d);
        }
      }
    }
  }

  // ----- texts without a connect string or without a password -----

  /** Here " AS SYS" stands, in capitals or not. */
  predicate RoleAt(s: string, i: nat) { i + 7 <= |s| && Upper(s[i..i + 7]) == " AS SYS" }

  lemma {:induction false} UpperAt(s: string, i: nat, n: nat)
    requires i + n <= |s|
    ensures Upper(s)[i..i + n] == Upper(s[i..i + n])
  {
  }

  predicate Occurs(s: string, t: string, i: nat) { i + |t| <= |s| && s[i..i + |t|] == t }

  lemma {:induction false} IndexIs(s: string, t: string, i: nat)
    requires t != "" && i <= |s| && (i < |s| ==> Occurs(s, t, i)) && forall k :: 0 <= k < i ==> !Occurs(s, t, k)
    ensures Index(s, t) == i
  {
    if i > 0 {
      assert !Occurs(s, t, 0);
      forall k | 0 <= k < |s| ensures Occurs(s[1..], t, k) == Occurs(s, t, k + 1) {
        assert k + |t| < |s| ==> s[1..][k..k + |t|] == s[k + 1..k + 1 + |t|];
      }
      IndexIs(s[1..], t, i - 1);
    } else if s != "" {
      assert s[..|t|] == s[0..0 + |t|];
    }
  }

  /** The role starts at the first " AS SYS", and there is none without it. */
  lemma {:induction false} RoleFound(d: string, i: nat)
    requires i <= |d| && (i < |d| ==> RoleAt(d, i)) && forall k :: 0 <= k < i ==> !RoleAt(d, k)
    ensures AsSys(d) == i
  {
    hide Index, Upper;
    forall k: nat ensures Occurs(Upper(d), " AS SYS", k) == RoleAt(d, k) {
      if k + 7 <= |d| {
        UpperAt(d, k, 7);
      }
    }
    IndexIs(Upper(d), " AS SYS", i);
  }

  /** The only role in a text is at the end of `front`, if there is one. */
  ghost predicate RoleBehind(front: string, role: string) {
    && '@' !in role && (role == "" || RoleAt(role, 0))
    && forall k :: 0 <= k < |front| ==> !RoleAt(front + role, k)
  }

  lemma {:induction false} RoleIsBehind(front: string, role: string)
    requires RoleBehind(front, role)
    ensures AsSys(front + role) == |front|
  {
    hide Upper;
    var d := front + role;
    if role != "" {
      assert d[|front|..|front| + 7] == role[0..0 + 7];
    }
    RoleFound(d, |front|);
  }

  lemma {:induction false} NoAt(front: string, role: string)
    requires forall k :: 0 <= k < |front| && front[k] == '@' ==> k > 0 && front[k - 1] == QUOTE
    requires '@' !in role
    ensures FirstSplit(front + role, '@', 0) == |front + role|
  {
    var d := front + role;
    forall k | 0 <= k < |d| ensures !Splits(d, k, '@') {
      if k < |front| {
        assert d[k] == front[k] && (k > 0 ==> d[k - 1] == front[k - 1]);
      } else {
        assert d[k] == role[k - |front|];
      }
    }
    FirstSplitIs(d, '@', |d|);
  }

  /** Without an at sign the role alone is the connect string: the text
      "scott/tiger AS SYSDBA". */
  lemma {:induction false} LoginWithRole(user: string, password: string, role: string)
    requires QUOTE !in user && QUOTE !in password && QUOTE !in role
    requires RoleBehind(Escape(user) + "/" + Escape(password), role)
    ensures ParseLogin(Escape(user) + "/" + Escape(password) + role) == Login(user, password, role)
  {
    assert role != "" ==> role[0..7][0] == role[0] && Upper(role[0..7])[0] == ' ' && role[0] != '/';
    hide IsUrl, FirstSplit, Escape, Unquoted, Index, Upper, UserOf, PasswordOf, RoleAt;
    var a, b := Escape(user), Escape(password);
    var front := a + "/" + b;
    var d := front + role;
    EscapeQuotes(user);
    EscapeQuotes(password);
    JoinedIsNoUrl(a, b, role);
    QuotedLogin(user, password);
    NoAt(front, role);
    RoleIsBehind(front, role);
    SplitsThere(a, '/', b);
    CredentialsJoined(user, password);
    PlainText(role);
    assert d[..|d|] == d && d[..|front|] == front && d[|front|..] == role;
  }

  /** Without an at sign and without a slash there is no login: everything is
      the connect string, with the role said again. */
  lemma {:induction false} NoLogin(name: string, role: string)
    requires !IsUrl(name + role) && RoleBehind(name, role)
    requires forall k :: 0 <= k < |name| && name[k] in ['/', '@'] ==> k > 0 && name[k - 1] == QUOTE
    ensures ParseLogin(name + role) == Login("", "", name + role + Unquoted(role))
  {
    hide IsUrl, Unquoted, Index, Upper, UserOf, PasswordOf, ParseLogin, FirstSplit;
    var d := name + role;
    NoAt(name, role);
    RoleIsBehind(name, role);
    FirstSplitIs(name, '/', |name|);
    assert d[..|name|] == name && d[|name|..] == role;
    BareParsed(d);
  }

  /** Without a slash there is no password: the text "scott@db". */
  lemma {:induction false} NoPassword(user: string, connect: string)
    requires QUOTE !in user && QUOTE !in connect
    ensures ParseLogin(Escape(user) + "@" + connect) == Login(user, "", connect)
  {
    hide IsUrl, FirstSplit, Escape, Unquoted, Index, Upper;
    var a := Escape(user);
    var d := a + "@" + connect;
    EscapeQuotes(user);
    UserIsNoUrl(a, connect);
    SplitsThere(a, '@', connect);
    FirstSplitIs(a, '/', |a|);
    UnquotedEscape(user);
    PlainText(connect);
    assert d[..|a|] == a && d[|a| + 1..] == connect && a[..|a|] == a && a[|a|..] == "" && connect + "" == connect;
  }

  lemma {:induction false} UserIsNoUrl(a: string, connect: string)
    requires IsQuoted(a)
    ensures !IsUrl(a + "@" + connect)
  {
    var d := a + "@" + connect;
    var i := Index(d, "://");
    assert d[|a|] == '@';
    if i < |d| {
      assert d[i] == d[i..i + 3][0] == ':' && d[i + 1] == d[i..i + 3][1] == '/';
      NotInUser(a, connect, i);
    }
  }

  lemma {:induction false} NotInUser(a: string, connect: string, i: nat)
    requires IsQuoted(a)
    ensures var d := a + "@" + connect; i < |a| ==> d[i] != ':' || d[i + 1] != '/'
  {
    var d := a + "@" + connect;
    assert i + 1 < |a| ==> a[i] == d[i] && a[i + 1] == d[i + 1];
  }

  /** Line ends and tabs written with a backslash and a letter. */
  function Spelled(s: string): string {
    if s == "" then ""
    else
      (match s[0] case '\n' => [QUOTE, 'n'] case '\r' => [QUOTE, 'r'] case '\t' => [QUOTE, 't'] case c => [c])
      + Spelled(s[1..])
  }

  /** ... are read back. */
  lemma {:induction false} SpelledUnquoted(s: string)
    requires QUOTE !in s
    ensures UnquotedFrom(Spelled(s), false) == s && Unquoted(Spelled(s)) == s
  {
    if s != "" {
      SpelledUnquoted(s[1..]);
      var tail, all := Spelled(s[1..]), Spelled(s);
      assert s[0] != QUOTE && s == [s[0]] + s[1..];
      if s[0] in ['\n', '\r', '\t'] {
        assert all[1..][1..] == tail;
      } else {
        assert all[1..] == tail;
      }
    }
    if QUOTE !in Spelled(s) {
      PlainUnquoted(Spelled(s));
    }
  }
}
