/** Matching one token of a command against one token of a rule, in which `*` stands for any run. */
module TokenPatterns {
  import opened Text
  import opened Glob
  import opened RegExp
  import opened GlobCompiler

  // ------------------------------------------------------------------------ the regular expression

  function EscapeRegex(s: string): string {
    if s == "" then "" else EscapeChar(s[0]) + EscapeRegex(s[1..])
  }

  function EscapeChar(c: char): string {
    if IsSyntaxCharacter(c) then ['\\', c] else [c]
  }

  function EscapeAll(parts: seq<string>): seq<string> {
    if parts == [] then [] else [EscapeRegex(parts[0])] + EscapeAll(parts[1..])
  }

  /** The text handed to the constructor of regular expressions. */
  function TokenText(pattern: string): string {
    "^" + Join(EscapeAll(Split(pattern, "*")), ".*") + "$"
  }

  function TokenGlob(pattern: string): Glob {
    if pattern == "" then Nil
    else Cons(if pattern[0] == '*' then DoubleStar else Lit(pattern[0]), TokenGlob(pattern[1..]))
  }

  const TO_END := Then(Term(End, One), Done)

  function TokenPattern(pattern: string): Disjunction {
    Only(Then(Term(Start, One), Compile(TokenGlob(pattern), TO_END)))
  }

  /** The text between the anchors, one character of the pattern after the other. */
  function TokenBody(pattern: string): string {
    if pattern == "" then "" else BodyOf(pattern[0]) + TokenBody(pattern[1..])
  }

  function BodyOf(c: char): string { if c == '*' then ".*" else EscapeChar(c) }

  lemma BodyStep(p: string)
    ensures TokenBody(p) == if p == "" then "" else BodyOf(p[0]) + TokenBody(p[1..])
  {}

  lemma {:induction false} BodyConcat(a: string, b: string)
    ensures TokenBody(a + b) == TokenBody(a) + TokenBody(b)
  {
    hide BodyOf, TokenBody;
    BodyStep(a);
    if a == "" {
      assert a + b == b;
    } else {
      BodyStep(a + b);
      BodyConcat(a[1..], b);
      assert (a + b)[1..] == a[1..] + b;
    }
  }

  lemma {:induction false} BodyNoStar(s: string)
    requires '*' !in s
    ensures TokenBody(s) == EscapeRegex(s)
  {
    hide EscapeChar;
    if s != "" { BodyNoStar(s[1..]); }
  }

  lemma {:induction false} BodyIsJoin(pattern: string)
    ensures TokenBody(pattern) == Join(EscapeAll(Split(pattern, "*")), ".*")
    decreases |pattern|
  {
    hide EscapeRegex, TokenBody, IndexOf, Split, Join, EscapeAll;
    SplitStep(pattern, "*");
    StarCut(pattern);
    var i := IndexOf(pattern, "*");
    if i < 0 {
      BodyNoStar(pattern);
      JoinEscapedOne(pattern);
    } else {
      BodyIsJoin(pattern[i + 1..]);
      BodyFront(pattern[..i], pattern[i + 1..]);
      JoinEscaped(pattern[..i], Split(pattern[i + 1..], "*"));
    }
  }

  /** No star in front of the first one. */
  lemma StarCut(pattern: string)
    ensures var i := IndexOf(pattern, "*");
      if i < 0 then '*' !in pattern
      else i < |pattern| && '*' !in pattern[..i] && pattern == pattern[..i] + ("*" + pattern[i + 1..])
  {
    hide IndexOf, At;
    var i := IndexOf(pattern, "*");
    if i < 0 {
      NoStarLeft(pattern, |pattern|);
      assert pattern[..|pattern|] == pattern;
    } else {
      CutAtStar(pattern, i);
      NoStarLeft(pattern, i);
    }
  }

  lemma CutAtStar(pattern: string, i: int)
    requires At(pattern, "*", i)
    ensures 0 <= i < |pattern| && pattern == pattern[..i] + ("*" + pattern[i + 1..])
  {
    assert pattern[i..i + 1][0] == pattern[i];
  }

  lemma BodyFront(front: string, rest: string)
    requires '*' !in front
    ensures TokenBody(front + ("*" + rest)) == EscapeRegex(front) + ".*" + TokenBody(rest)
  {
    hide EscapeRegex, TokenBody;
    BodyNoStar(front);
    BodyConcat(front, "*" + rest);
    BodyConcat("*", rest);
    StarBody();
  }

  lemma JoinEscapedOne(s: string)
    ensures Join(EscapeAll([s]), ".*") == EscapeRegex(s)
  {
    hide EscapeRegex;
    var parts := [s];
    assert EscapeAll(parts[1..]) == [];
  }

  lemma StarBody()
    ensures TokenBody("*") == ".*"
  {
    var s := "*";
    assert TokenBody(s[1..]) == "";
  }

  lemma JoinEscaped(first: string, rest: seq<string>)
    requires rest != []
    ensures Join(EscapeAll([first] + rest), ".*") == EscapeRegex(first) + ".*" + Join(EscapeAll(rest), ".*")
  {
    hide EscapeRegex;
    assert ([first] + rest)[1..] == rest;
    assert EscapeAll([first] + rest)[1..] == EscapeAll(rest);
  }

  lemma NoStarLeft(s: string, n: nat)
    requires n <= |s| && forall i :: 0 <= i < n ==> !At(s, "*", i)
    ensures '*' !in s[..n]
  {
    forall i | 0 <= i < n ensures s[i] != '*' {
      assert !At(s, "*", i);
      assert s[i..i + 1] == [s[i]];
    }
  }

  /** The constructor reads the text as the anchored pattern. */
  lemma TextReads(pattern: string)
    ensures ReadDisjunction(TokenText(pattern)) == Ok(TokenPattern(pattern), "")
  {
    hide ReadAlternative, TokenBody, Split, Join, EscapeAll;
    BodyIsJoin(pattern);
    var body := TokenBody(pattern) + "$";
    BodyReads(pattern);
    assert TokenText(pattern) == "^" + body;
    StartReads(pattern, body);
    ReadCons("^" + body, Term(Start, One), body);
  }

  lemma StartReads(pattern: string, body: string)
    requires body == TokenBody(pattern) + "$"
    ensures ReadTerm("^" + body) == Ok(Term(Start, One), body)
  {
    BodyFollows(pattern);
    assert ("^" + body)[1..] == body;
  }

  lemma BodyFollows(pattern: string)
    ensures var t := TokenBody(pattern) + "$"; Follows(t) && t[0] != '|' && t[0] != ')'
  {}

  lemma {:induction false} BodyReads(pattern: string)
    ensures ReadAlternative(TokenBody(pattern) + "$") == Ok(Compile(TokenGlob(pattern), TO_END), "")
    decreases |pattern|
  {
    hide ReadAlternative, ReadTerm;
    var text := TokenBody(pattern) + "$";
    if pattern == "" {
      EndReads();
      assert text == "$" && Compile(TokenGlob(pattern), TO_END) == TO_END;
    } else {
      var rest := TokenBody(pattern[1..]) + "$";
      BodyFollows(pattern);
      BodyFollows(pattern[1..]);
      BodyReads(pattern[1..]);
      if pattern[0] == '*' {
        assert text == ".*" + rest;
        RunReads(rest);
        ReadCons(text, Term(Dot, ZeroOrMore), rest);
      } else {
        assert text == EscapeChar(pattern[0]) + rest;
        CharReads(pattern[0], rest);
        ReadCons(text, Term(Char(pattern[0]), One), rest);
      }
    }
  }

  lemma EndReads()
    ensures ReadAlternative("$") == Ok(TO_END, "")
  {
    var s := "$";
    assert s[1..] == "";
    assert ReadTerm(s) == Ok(Term(End, One), "");
    assert ReadAlternative("") == Ok(Done, "");
    ReadCons(s, Term(End, One), "");
  }

  lemma RunReads(rest: string)
    requires Follows(rest)
    ensures ReadTerm(".*" + rest) == Ok(Term(Dot, ZeroOrMore), rest)
  {
    var s := ".*" + rest;
    assert s[1..] == "*" + rest && s[1..][1..] == rest;
  }

  lemma CharReads(c: char, rest: string)
    requires Follows(rest)
    ensures ReadTerm(EscapeChar(c) + rest) == Ok(Term(Char(c), One), rest)
  {
    var s := EscapeChar(c) + rest;
    assert s[|EscapeChar(c)|..] == rest;
  }

  // ---------------------------------------------------------------------------- what it accepts

  /** `*` stands for any run of other than line terminators, everything else for itself. */
  predicate StarMatch(p: string, t: string)
    decreases |p| + |t|
  {
    if p == "" then t == ""
    else if p[0] == '*' then StarMatch(p[1..], t) || (t != "" && !IsLineTerminator(t[0]) && StarMatch(p, t[1..]))
    else t != "" && t[0] == p[0] && StarMatch(p[1..], t[1..])
  }

  /** Without a star the token must be equal; otherwise the regular expression decides. */
  predicate TokenMatches(p: string, t: string) {
    if '*' in p then StarMatch(p, t) else p == t
  }

  lemma {:induction false} StarMatchIff(p: string, t: string, i: nat)
    requires i <= |t|
    ensures Accepts(TokenGlob(p), t, i, |t|) <==> StarMatch(p, t[i..])
    decreases |p| + |t| - i
  {
    hide StarMatch, Accepts;
    StarMatchStep(p, t, i);
    AcceptsStep(p, t, i);
    if p != "" {
      StarMatchIff(p[1..], t, i);
      if i < |t| {
        StarMatchIff(p, t, i + 1);
        StarMatchIff(p[1..], t, i + 1);
      }
    }
  }

  lemma StarMatchStep(p: string, t: string, i: nat)
    requires i <= |t|
    ensures StarMatch(p, t[i..]) <==>
      if p == "" then i == |t|
      else if p[0] == '*' then
        StarMatch(p[1..], t[i..]) || (i < |t| && !IsLineTerminator(t[i]) && StarMatch(p, t[i + 1..]))
      else i < |t| && t[i] == p[0] && StarMatch(p[1..], t[i + 1..])
  {
    if i < |t| { assert t[i..][1..] == t[i + 1..]; }
  }

  lemma AcceptsStep(p: string, t: string, i: nat)
    requires i <= |t|
    ensures Accepts(TokenGlob(p), t, i, |t|) <==>
      if p == "" then i == |t|
      else if p[0] == '*' then Accepts(TokenGlob(p[1..]), t, i, |t|)
                               || (i < |t| && !IsLineTerminator(t[i]) && Accepts(TokenGlob(p), t, i + 1, |t|))
      else i < |t| && t[i] == p[0] && Accepts(TokenGlob(p[1..]), t, i + 1, |t|)
  {
    if p != "" {
      var rest := TokenGlob(p[1..]);
      if p[0] == '*' {
        StarStep(rest, t, i);
      } else {
        LitStep(p[0], rest, t, i);
      }
    }
  }

  lemma LitStep(c: char, rest: Glob, t: string, i: nat)
    requires i <= |t|
    ensures Accepts(Cons(Lit(c), rest), t, i, |t|) <==> i < |t| && t[i] == c && Accepts(rest, t, i + 1, |t|)
  {
    assert AcceptsItem(Lit(c), t, i, i + 1) <==> i < |t| && t[i] == c;
  }

  lemma StarStep(rest: Glob, t: string, i: nat)
    requires i <= |t|
    ensures Accepts(Cons(DoubleStar, rest), t, i, |t|) <==>
      Accepts(rest, t, i, |t|) || (i < |t| && !IsLineTerminator(t[i]) && Accepts(Cons(DoubleStar, rest), t, i + 1, |t|))
  {
    var g := Cons(DoubleStar, rest);
    assert forall k, n :: Accepts(g, t, k, n) <==>
      exists m :: AcceptsItem(DoubleStar, t, k, m) && Accepts(rest, t, m, n);
    assert forall k, m :: AcceptsItem(DoubleStar, t, k, m) <==> OneLine(t, k, m);
    hide Accepts, AcceptsItem;
    assert OneLine(t, i, i);
    if m :| OneLine(t, i, m) && Accepts(rest, t, m, |t|) {
      assert m > i ==> OneLine(t, i + 1, m);
    }
    if i < |t| && !IsLineTerminator(t[i]) && Accepts(g, t, i + 1, |t|) {
      var m :| OneLine(t, i + 1, m) && Accepts(rest, t, m, |t|);
      assert OneLine(t, i, m);
    }
  }

  lemma {:induction false} StarFree(p: string, t: string)
    requires '*' !in p
    ensures StarMatch(p, t) <==> p == t
  {
    if p != "" && t != "" {
      StarFree(p[1..], t[1..]);
      assert p == [p[0]] + p[1..] && t == [t[0]] + t[1..];
    }
  }

  /**
   * The regular expression built from the text of a token passes exactly the tokens in which every
   * star is replaced by a run without line terminators; the shortcut for star-free tokens agrees.
   */
  lemma TokenMatchesIff(p: string, t: string)
    ensures ReadDisjunction(TokenText(p)) == Ok(TokenPattern(p), "")
    ensures TokenMatches(p, t) <==> Test(TokenPattern(p), t)
  {
    var g, first := TokenGlob(p), Term(Start, One);
    var body := Compile(g, TO_END);
    TextReads(p);
    forall m ensures Reaches(first, t, m) <==> m == 0 { StartAnchor(t, m); }
    forall m, j ensures Matches(body, t, m, j) <==> (j == |t| && Accepts(g, t, m, |t|)) {
      CompileCorrect(g, TO_END, t, m, j);
      EndsThere(g, t, m, j);
    }
    assert forall m :: Runs(body, t, m) <==> exists j :: Matches(body, t, m, j);
    PatternUnfold(first, body, t);
    StarMatchIff(p, t, 0);
    assert t[0..] == t;
    if '*' !in p { StarFree(p, t); }
    assert TokenMatches(p, t) <==> StarMatch(p, t);
    assert TokenPattern(p) == Only(Then(first, body));
    hide *;
    assert Reaches(first, t, 0);
    forall m ensures Runs(body, t, m) <==> Accepts(g, t, m, |t|) {
      if Accepts(g, t, m, |t|) { assert Matches(body, t, m, |t|); }
    }
  }
}
