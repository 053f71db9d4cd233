/**
 * Finding a JSON object in a model's free text: the first brace-balanced region, with braces and
 * quotes inside string values not counted. JSON texts are those of sections 2 to 7 of RFC 8259.
 */
module JsonScan {
  import opened Options

  // ------------------------------------------------------------------------------- printed JSON

  /** A character of a string as written: itself, or behind a reverse solidus. */
  datatype StringChar = Plain(c: char) | Escaped(c: char)

  /** White space may stand around every token, so the texts carry it. */
  datatype Value =
    | Literal(text: string)
    | String(chars: seq<StringChar>)
    | Array(inner: string, elements: Elements)
    | Object(inner: string, members: Members)
  datatype Elements = NoElements | Element(before: string, v: Value, after: string, rest: Elements)
  datatype Members =
    | NoMembers
    | Member(before: string, key: seq<StringChar>, beforeColon: string, afterColon: string,
             v: Value, after: string, rest: Members)

  predicate IsWhite(s: string) {
    forall c :: c in s ==> c in " \t\n\r"
  }

  predicate IsStringChar(x: StringChar) {
    match x
    case Plain(c) => c != '"' && c != '\\' && c >= ' '
    case Escaped(c) => c in "\"\\/bfnrtu"
  }

  predicate AreStringChars(chars: seq<StringChar>) {
    forall x :: x in chars ==> IsStringChar(x)
  }

  /** Numbers, `true`, `false` and `null`. */
  predicate IsLiteral(s: string) {
    s != "" && forall c :: c in s ==> 'a' <= c <= 'z' || '0' <= c <= '9' || c in "+-.E"
  }

  predicate WellFormed(v: Value) {
    match v
    case Literal(text) => IsLiteral(text)
    case String(chars) => AreStringChars(chars)
    case Array(inner, elements) => IsWhite(inner) && WellFormedElements(elements)
    case Object(inner, members) => IsWhite(inner) && WellFormedMembers(members)
  }

  predicate WellFormedElements(e: Elements) {
    e.Element? ==> IsWhite(e.before) && WellFormed(e.v) && IsWhite(e.after) && WellFormedElements(e.rest)
  }

  predicate WellFormedMembers(m: Members) {
    m.Member? ==>
      && IsWhite(m.before) && AreStringChars(m.key) && IsWhite(m.beforeColon) && IsWhite(m.afterColon)
      && WellFormed(m.v) && IsWhite(m.after) && WellFormedMembers(m.rest)
  }

  function PrintChars(chars: seq<StringChar>): string {
    if chars == [] then ""
    else (match chars[0] case Plain(c) => [c] case Escaped(c) => ['\\', c]) + PrintChars(chars[1..])
  }

  function PrintString(chars: seq<StringChar>): string {
    "\"" + PrintChars(chars) + "\""
  }

  function Print(v: Value): string {
    match v
    case Literal(text) => text
    case String(chars) => PrintString(chars)
    case Array(inner, elements) => "[" + (inner + PrintElements(elements) + "]")
    case Object(inner, members) => "{" + (inner + PrintMembers(members) + "}")
  }

  function PrintElements(e: Elements): string {
    match e
    case NoElements => ""
    case Element(before, v, after, rest) =>
      before + Print(v) + after + (if rest.NoElements? then "" else ",") + PrintElements(rest)
  }

  function PrintMembers(m: Members): string {
    match m
    case NoMembers => ""
    case Member(before, key, beforeColon, afterColon, v, after, rest) =>
      before + PrintString(key) + beforeColon + ":" + afterColon + Print(v) + after
      + (if rest.NoMembers? then "" else ",") + PrintMembers(rest)
  }

  // ------------------------------------------------------------------------------------- the scan

  datatype State = State(depth: int, inString: bool, escaped: bool)

  /** One character, as the scan reads it. */
  function Step(st: State, c: char): State {
    if st.escaped then st.(escaped := false)
    else if c == '\\' && st.inString then st.(escaped := true)
    else if c == '"' then st.(inString := !st.inString)
    else if st.inString then st
    else if c == '{' then st.(depth := st.depth + 1)
    else if c == '}' then st.(depth := st.depth - 1)
    else st
  }

  /** The character closes the region. */
  predicate Closes(st: State, c: char) {
    !st.escaped && !st.inString && c == '}' && st.depth == 1
  }

  /** Index of the closing brace, or -1. */
  function Scan(s: string, st: State): (r: int)
    ensures -1 <= r < |s|
    ensures r >= 0 ==> s[r] == '}'
  {
    if s == "" then -1
    else if Closes(st, s[0]) then 0
    else
      var r := Scan(s[1..], Step(st, s[0]));
      if r < 0 then -1 else r + 1
  }

  function FirstBrace(s: string): (n: int)
    ensures n < 0 ==> n == -1 && '{' !in s
    ensures n >= 0 ==> n < |s| && s[n] == '{' && '{' !in s[..n]
  {
    if s == "" then -1
    else if s[0] == '{' then 0
    else
      var n := FirstBrace(s[1..]);
      assert s == [s[0]] + s[1..];
      assert n >= 0 ==> s[..n + 1] == [s[0]] + s[1..][..n];
      if n < 0 then -1 else n + 1
  }

  function FirstBalanced(text: string): Option<string> {
    var start := FirstBrace(text);
    if start < 0 then None
    else
      var end := Scan(text[start..], State(0, false, false));
      if end < 0 then None else Some(text[start..start + end + 1])
  }

  // ------------------------------------------------------------------- printed text is passed over

  /** Reading `s` from `st` closes nothing and ends in `st'`. */
  ghost predicate Passes(s: string, st: State, st': State) {
    if s == "" then st == st'
    else !Closes(st, s[0]) && Passes(s[1..], Step(st, s[0]), st')
  }

  lemma {:induction false} PassesConcat(a: string, b: string, s0: State, s1: State, s2: State)
    requires Passes(a, s0, s1) && Passes(b, s1, s2)
    ensures Passes(a + b, s0, s2)
    decreases |a|
  {
    hide Step, Closes;
    if a == "" {
      assert a + b == b;
    } else {
      assert (a + b)[1..] == a[1..] + b;
      PassesConcat(a[1..], b, Step(s0, a[0]), s1, s2);
    }
  }

  lemma {:induction false} ScanPasses(a: string, b: string, s0: State, s1: State)
    requires Passes(a, s0, s1)
    ensures Scan(a + b, s0) == if Scan(b, s1) < 0 then -1 else |a| + Scan(b, s1)
    decreases |a|
  {
    hide Step, Closes;
    if a == "" {
      assert a + b == b;
    } else {
      assert (a + b)[1..] == a[1..] + b;
      ScanPasses(a[1..], b, Step(s0, a[0]), s1);
    }
  }

  /** Inside an object, between tokens. */
  function Between(d: int): State { State(d, false, false) }

  /** The text leaves the state between tokens as it is. */
  ghost predicate Neutral(s: string) {
    forall d :: d >= 1 ==> Passes(s, Between(d), Between(d))
  }

  lemma NeutralConcat(a: string, b: string)
    requires Neutral(a) && Neutral(b)
    ensures Neutral(a + b)
  {
    hide Passes;
    forall d | d >= 1 ensures Passes(a + b, Between(d), Between(d)) {
      PassesConcat(a, b, Between(d), Between(d), Between(d));
    }
  }

  lemma {:induction false} PlainNeutral(s: string)
    requires '"' !in s && '{' !in s && '}' !in s
    ensures Neutral(s)
    decreases |s|
  {
    if s != "" {
      PlainNeutral(s[1..]);
      forall d | d >= 1 ensures Passes(s, Between(d), Between(d)) {
        assert Step(Between(d), s[0]) == Between(d);
      }
    }
  }

  lemma {:induction false} CharsPass(chars: seq<StringChar>, d: int)
    requires AreStringChars(chars)
    ensures Passes(PrintChars(chars), State(d, true, false), State(d, true, false))
    decreases |chars|
  {
    if chars != [] {
      assert chars[0] in chars && IsStringChar(chars[0]);
      var st := State(d, true, false);
      var first := match chars[0] case Plain(c) => [c] case Escaped(c) => ['\\', c];
      OneCharPasses(chars[0], first, d);
      CharsPass(chars[1..], d);
      PassesConcat(first, PrintChars(chars[1..]), st, st, st);
    }
  }

  lemma OneCharPasses(x: StringChar, text: string, d: int)
    requires IsStringChar(x) && text == match x case Plain(c) => [c] case Escaped(c) => ['\\', c]
    ensures Passes(text, State(d, true, false), State(d, true, false))
  {
    assert text[1..] == match x case Plain(c) => "" case Escaped(c) => [c];
    assert x.Escaped? ==> [x.c][1..] == "";
  }

  lemma QuotePasses(from: State, to: State)
    requires !from.escaped && to == from.(inString := !from.inString)
    ensures Passes("\"", from, to)
  {
    assert "\""[1..] == "" && Passes("", to, to);
  }

  lemma StringNeutral(chars: seq<StringChar>)
    requires AreStringChars(chars)
    ensures Neutral(PrintString(chars))
  {
    hide PrintChars;
    forall d | d >= 1 ensures Passes(PrintString(chars), Between(d), Between(d)) {
      var st := State(d, true, false);
      CharsPass(chars, d);
      QuotePasses(Between(d), st);
      QuotePasses(st, Between(d));
      hide Passes;
      PassesConcat("\"", PrintChars(chars), Between(d), st, st);
      PassesConcat("\"" + PrintChars(chars), "\"", Between(d), st, Between(d));
    }
  }

  lemma WhiteNeutral(s: string)
    requires IsWhite(s)
    ensures Neutral(s)
  {
    PlainNeutral(s);
  }

  lemma {:induction false} ValueNeutral(v: Value)
    requires WellFormed(v)
    ensures Neutral(Print(v))
    decreases v, 0
  {
    hide Neutral;
    match v {
      case Literal(text) => PlainNeutral(text);
      case String(chars) => StringNeutral(chars);
      case Array(inner, elements) =>
        WhiteNeutral(inner);
        ElementsNeutral(elements);
        NeutralConcat(inner, PrintElements(elements));
        PlainNeutral("[");
        PlainNeutral("]");
        NeutralConcat(inner + PrintElements(elements), "]");
        NeutralConcat("[", inner + PrintElements(elements) + "]");
      case Object(inner, members) =>
        WhiteNeutral(inner);
        MembersNeutral(members);
        NeutralConcat(inner, PrintMembers(members));
        BracesNeutral(inner + PrintMembers(members));
    }
  }

  lemma BracePasses(brace: string, st: State, st': State)
    requires |brace| == 1 && !Closes(st, brace[0]) && Step(st, brace[0]) == st'
    ensures Passes(brace, st, st')
  {
    assert brace[1..] == "";
    assert Passes("", st', st');
  }

  /** Balanced braces around neutral text, one level deeper. */
  lemma BracesNeutral(body: string)
    requires Neutral(body)
    ensures Neutral("{" + (body + "}"))
  {
    forall d | d >= 1 ensures Passes("{" + (body + "}"), Between(d), Between(d)) {
      BracePasses("{", Between(d), Between(d + 1));
      BracePasses("}", Between(d + 1), Between(d));
      assert Passes(body, Between(d + 1), Between(d + 1));
      hide Passes;
      PassesConcat(body, "}", Between(d + 1), Between(d + 1), Between(d));
      PassesConcat("{", body + "}", Between(d), Between(d + 1), Between(d));
    }
  }

  lemma {:induction false} ElementsNeutral(e: Elements)
    requires WellFormedElements(e)
    ensures Neutral(PrintElements(e))
    decreases e, 0
  {
    hide Neutral;
    match e {
      case NoElements => PlainNeutral("");
      case Element(before, v, after, rest) =>
        var comma := if rest.NoElements? then "" else ",";
        WhiteNeutral(before);
        ValueNeutral(v);
        WhiteNeutral(after);
        PlainNeutral(comma);
        ElementsNeutral(rest);
        NeutralConcat(before, Print(v));
        NeutralConcat(before + Print(v), after);
        NeutralConcat(before + Print(v) + after, comma);
        NeutralConcat(before + Print(v) + after + comma, PrintElements(rest));
    }
  }

  lemma {:induction false} MembersNeutral(m: Members)
    requires WellFormedMembers(m)
    ensures Neutral(PrintMembers(m))
    decreases m, 0
  {
    hide Neutral;
    match m {
      case NoMembers => PlainNeutral("");
      case Member(before, key, beforeColon, afterColon, v, after, rest) =>
        var comma := if rest.NoMembers? then "" else ",";
        WhiteNeutral(before);
        StringNeutral(key);
        WhiteNeutral(beforeColon);
        PlainNeutral(":");
        WhiteNeutral(afterColon);
        ValueNeutral(v);
        WhiteNeutral(after);
        PlainNeutral(comma);
        MembersNeutral(rest);
        hide *;
        var a := before + PrintString(key);
        NeutralConcat(before, PrintString(key));
        NeutralConcat(a, beforeColon);
        NeutralConcat(a + beforeColon, ":");
        NeutralConcat(a + beforeColon + ":", afterColon);
        var b := a + beforeColon + ":" + afterColon;
        NeutralConcat(b, Print(v));
        NeutralConcat(b + Print(v), after);
        NeutralConcat(b + Print(v) + after, comma);
        NeutralConcat(b + Print(v) + after + comma, PrintMembers(rest));
        MembersText(m);
    }
  }

  lemma MembersText(m: Members)
    requires m.Member?
    ensures PrintMembers(m) ==
      m.before + PrintString(m.key) + m.beforeColon + ":" + m.afterColon + Print(m.v) + m.after
      + (if m.rest.NoMembers? then "" else ",") + PrintMembers(m.rest)
  {}

  /** Any printed object behind brace-free text and in front of any text is found exactly. */
  lemma FindsPrintedObject(before: string, v: Value, after: string)
    requires '{' !in before && v.Object? && WellFormed(v)
    ensures FirstBalanced(before + Print(v) + after) == Some(Print(v))
  {
    var inner, members := v.inner, v.members;
    var body := inner + PrintMembers(members);
    assert Neutral(body) by {
      hide Neutral;
      WhiteNeutral(inner);
      MembersNeutral(members);
      NeutralConcat(inner, PrintMembers(members));
    }
    var text, p := before + Print(v) + after, Print(v);
    assert p == "{" + (body + "}");
    FirstBraceIs(before, p + after);
    assert text == before + (p + after);
    assert text[|before|..] == "{" + (body + ("}" + after));
    assert Passes(body, Between(1), Between(1));
    assert "{"[1..] == "" && Passes("{", Between(0), Between(1));
    assert Scan("}" + after, Between(1)) == 0;
    ScanPasses(body, "}" + after, Between(1), Between(1));
    ScanPasses("{", body + ("}" + after), Between(0), Between(1));
    assert text[|before|..|before| + |p|] == p;
  }

  lemma {:induction false} FirstBraceIs(before: string, rest: string)
    requires '{' !in before && rest != "" && rest[0] == '{'
    ensures FirstBrace(before + rest) == |before|
  {
    var s := before + rest;
    assert s[|before|] == '{';
    var n := FirstBrace(s);
    assert forall k :: 0 <= k < |before| ==> s[k] == before[k] && before[k] in before;
    assert forall k :: |before| < k <= |s| ==> s[..k][|before|] == '{';
  }

  /** What is found starts at the first brace, ends at a brace, and no shorter start of it is balanced. */
  lemma {:induction false} FoundIsShortest(s: string, st: State, k: nat)
    requires Scan(s, st) >= 0 && k < Scan(s, st)
    ensures Scan(s[..k + 1], st) == -1
    decreases |s|
  {
    if k > 0 {
      assert s[..k + 1][1..] == s[1..][..k];
      FoundIsShortest(s[1..], Step(st, s[0]), k - 1);
    } else {
      assert s[..1][1..] == "";
    }
  }

  /** What the scan of the rest of `s` from index `i` means for a scan that began at `start`. */
  function Ahead(s: string, start: nat, i: nat, st: State): int
    requires start <= i <= |s|
  {
    var rest := Scan(s[i..], st);
    if rest < 0 then -1 else i - start + rest
  }

  lemma AheadStep(s: string, start: nat, i: nat, st: State)
    requires start <= i < |s|
    ensures Ahead(s, start, i, st) == if Closes(st, s[i]) then i - start else Ahead(s, start, i + 1, Step(st, s[i]))
  {
    hide Closes, Step;
    assert s[i..][0] == s[i] && s[i..][1..] == s[i + 1..];
  }

  lemma AheadEnds(s: string, start: nat)
    requires start <= |s|
    ensures forall st :: Ahead(s, start, |s|, st) == -1
    ensures Ahead(s, start, start, State(0, false, false)) == Scan(s[start..], State(0, false, false))
  {}

  method FirstBalancedObject(text: string) returns (r: Option<string>)
    ensures r == FirstBalanced(text)
  {
    hide Scan, Ahead, FirstBrace;
    var start := FirstBrace(text);
    if start == -1 { return None; }
    var depth, inString, escaped := 0, false, false;
    AheadEnds(text, start);
    for i := start to |text|
      invariant Ahead(text, start, i, State(depth, inString, escaped)) == Scan(text[start..], State(0, false, false))
    {
      var ch := text[i];
      AheadStep(text, start, i, State(depth, inString, escaped));
      if escaped {
        escaped := false;
        continue;
      }
      if ch == '\\' && inString {
        escaped := true;
        continue;
      }
      if ch == '"' {
        inString := !inString;
        continue;
      }
      if inString { continue; }
      if ch == '{' {
        depth := depth + 1;
      } else if ch == '}' {
        depth := depth - 1;
        if depth == 0 { return Some(text[start..i + 1]); }
      }
    }
    return None;
  }
}
