/**
 * Deny and allow rules for shell commands: cutting a compound command at its operators, cutting a
 * command into tokens, looking through wrappers, and matching rule patterns against the tokens.
 */
module CommandRules {
  import opened Options
  import opened Text
  import opened Spacing
  import opened TokenPatterns

  // --------------------------------------------------------------------- cutting at the operators

  predicate IsQuote(c: char) { c == '"' || c == '\'' }

  predicate IsOperator(c: char) { c == '|' || c == '&' || c == ';' || c == '\n' }

  /** `s` starts with `&&` or `||`. */
  predicate Doubled(s: string) { |s| > 1 && s[0] == s[1] && (s[0] == '&' || s[0] == '|') }

  /** The quote that is open behind `c`. */
  function Quoting(quote: Option<char>, c: char): Option<char> {
    if quote.Some? then if c == quote.value then None else quote
    else if IsQuote(c) then Some(c) else None
  }

  /** The pieces of `s`, the first of them continuing `cur`, inside `quote`. */
  function Pieces(s: string, cur: string, quote: Option<char>): seq<string>
    decreases |s|
  {
    if s == "" then [cur]
    else if quote.Some? || !IsOperator(s[0]) then Pieces(s[1..], cur + [s[0]], Quoting(quote, s[0]))
    else [cur] + Pieces(s[if Doubled(s) then 2 else 1..], "", None)
  }

  function Kept(parts: seq<string>): seq<string> {
    if parts == [] then [] else (if Trim(parts[0]) == "" then [] else [Trim(parts[0])]) + Kept(parts[1..])
  }

  function Subcommands(command: string): seq<string> {
    Kept(Pieces(command, "", None))
  }

  method SplitCompound(command: string) returns (subs: seq<string>)
    ensures subs == Subcommands(command)
  {
    hide Kept, Pieces, Ahead, IsOperator, IsQuote;
    var parts: seq<string>, cur: string := [], "";
    var quote: Option<char> := None;
    var i := 0;
    AheadStart(command);
    while i < |command|
      invariant i <= |command|
      invariant Ahead(command, i, parts, cur, quote) == Pieces(command, "", None)
    {
      var c := command[i];
      AheadStep(command, i, parts, cur, quote);
      if quote.Some? {
        cur := cur + [c];
        if Some(c) == quote { quote := None; }
      } else if IsQuote(c) {
        quote := Some(c);
        cur := cur + [c];
      } else if AtDoubled(command, i) {
        parts, cur, i := parts + [cur], "", i + 1;
      } else if IsOperator(c) {
        parts, cur := parts + [cur], "";
      } else {
        cur := cur + [c];
      }
      i := i + 1;
    }
    AheadEnd(command, parts, cur, quote);
    subs := TrimAndFilter(parts + [cur]);
  }

  /** The two characters from `i` on are a doubled operator. */
  predicate AtDoubled(s: string, i: nat) {
    i + 1 < |s| && (s[i..i + 2] == "&&" || s[i..i + 2] == "||")
  }

  /** The pieces found and those still to come. */
  function Ahead(s: string, i: nat, parts: seq<string>, cur: string, quote: Option<char>): seq<string>
    requires i <= |s|
  {
    parts + Pieces(s[i..], cur, quote)
  }

  lemma AheadStart(s: string)
    ensures Ahead(s, 0, [], "", None) == Pieces(s, "", None)
  {
    hide Pieces;
    assert s[0..] == s;
  }

  lemma AheadEnd(s: string, parts: seq<string>, cur: string, quote: Option<char>)
    ensures Ahead(s, |s|, parts, cur, quote) == parts + [cur]
  {
    assert s[|s|..] == "";
  }

  lemma AheadStep(s: string, i: nat, parts: seq<string>, cur: string, quote: Option<char>)
    requires i < |s|
    ensures quote == None && IsQuote(s[i]) ==> !AtDoubled(s, i) && !IsOperator(s[i])
    ensures quote == None && AtDoubled(s, i) ==> IsOperator(s[i])
    ensures Ahead(s, i, parts, cur, quote) ==
      if quote.Some? || !IsOperator(s[i]) then Ahead(s, i + 1, parts, cur + [s[i]], Quoting(quote, s[i]))
      else Ahead(s, if AtDoubled(s, i) then i + 2 else i + 1, parts + [cur], "", None)
  {
    if AtDoubled(s, i) { IsDoubled(s, i); } else { NotDoubled(s, i); }
    hide Pieces, AtDoubled;
    PiecesStep(s, i, cur, quote);
  }

  lemma PiecesStep(s: string, i: nat, cur: string, quote: Option<char>)
    requires i < |s|
    ensures Pieces(s[i..], cur, quote) ==
      if quote.Some? || !IsOperator(s[i]) then Pieces(s[i + 1..], cur + [s[i]], Quoting(quote, s[i]))
      else [cur] + if Doubled(s[i..]) then Pieces(s[i..][2..], "", None) else Pieces(s[i + 1..], "", None)
  {
    assert s[i..][0] == s[i] && s[i..][1..] == s[i + 1..];
  }

  lemma IsDoubled(s: string, i: nat)
    requires AtDoubled(s, i)
    ensures Doubled(s[i..]) && IsOperator(s[i]) && s[i..][2..] == s[i + 2..]
  {
    assert s[i..][0] == s[i..i + 2][0] && s[i..][1] == s[i..i + 2][1];
  }

  lemma NotDoubled(s: string, i: nat)
    requires i < |s| && !AtDoubled(s, i)
    ensures !Doubled(s[i..])
  {
    if i + 1 < |s| { assert s[i..i + 2] == [s[i], s[i + 1]]; }
  }

  method TrimAndFilter(parts: seq<string>) returns (out: seq<string>)
    ensures out == Kept(parts)
  {
    hide Trim, Kept;
    out := [];
    assert parts[0..] == parts;
    for i := 0 to |parts|
      invariant Kept(parts) == out + Kept(parts[i..])
    {
      KeptFrom(parts, i);
      var part := Trim(parts[i]);
      if part != "" { out := out + [part]; }
    }
    KeptEnd(parts);
  }

  lemma KeptFrom(parts: seq<string>, i: nat)
    requires i < |parts|
    ensures Kept(parts[i..]) == (if Trim(parts[i]) == "" then [] else [Trim(parts[i])]) + Kept(parts[i + 1..])
  {
    hide Trim;
    assert parts[i..][0] == parts[i] && parts[i..][1..] == parts[i + 1..];
  }

  lemma KeptEnd(parts: seq<string>)
    ensures Kept(parts[|parts|..]) == []
  {}

  // ------------------------------------------------------------------------------------- tokens

  /** The tokens of `s`, the first of them continuing `cur` if one is open. */
  function TokensFrom(s: string, cur: string, open: bool, quote: Option<char>): seq<string>
    decreases |s|
  {
    if s == "" then if open then [cur] else []
    else
      var c, rest := s[0], s[1..];
      if quote.Some? then
        if c == quote.value then TokensFrom(rest, cur, true, None) else TokensFrom(rest, cur + [c], true, quote)
      else if IsQuote(c) then TokensFrom(rest, cur, true, Some(c))
      else if IsSpace(c) then
        if open then [cur] + TokensFrom(rest, "", false, None) else TokensFrom(rest, cur, false, None)
      else TokensFrom(rest, cur + [c], true, None)
  }

  function Tokens(sub: string): seq<string> { TokensFrom(sub, "", false, None) }

  method Tokenize(sub: string) returns (tokens: seq<string>)
    ensures tokens == Tokens(sub)
  {
    tokens := [];
    var cur: string, open := "", false;
    var quote: Option<char> := None;
    assert sub[0..] == sub;
    for i := 0 to |sub|
      invariant Tokens(sub) == tokens + TokensFrom(sub[i..], cur, open, quote)
    {
      assert sub[i..][0] == sub[i] && sub[i..][1..] == sub[i + 1..];
      var c := sub[i];
      if quote.Some? {
        if Some(c) == quote { quote := None; } else { cur := cur + [c]; }
        open := true;
      } else if IsQuote(c) {
        quote := Some(c);
        open := true;
      } else if IsSpace(c) {
        if open {
          tokens, cur, open := tokens + [cur], "", false;
        }
      } else {
        cur := cur + [c];
        open := true;
      }
    }
    if open { tokens := tokens + [cur]; }
  }

  // ----------------------------------------------------------------------------------- wrappers

  predicate IsNameStart(c: char) { 'A' <= c <= 'Z' || 'a' <= c <= 'z' || c == '_' }

  predicate IsNamePart(c: char) { IsNameStart(c) || '0' <= c <= '9' }

  predicate IsAssignment(t: string) {
    t != "" && IsNameStart(t[0]) && exists e :: 0 < e < |t| && t[e] == '=' && forall k :: 0 < k < e ==> IsNamePart(t[k])
  }

  /** A token that does not change which command runs, at position `i`. */
  predicate IsWrapper(t: string, i: nat) {
    IsAssignment(t) || t == "env" || t == "command" || (i > 0 && t == "--")
  }

  /** What is left of the tokens from position `i` on. */
  function Unwrapped(tokens: seq<string>, i: nat): seq<string> {
    if tokens != [] && IsWrapper(tokens[0], i) then Unwrapped(tokens[1..], i + 1) else tokens
  }

  method SkipCommandPrefixes(tokens: seq<string>) returns (rest: seq<string>)
    ensures rest == Unwrapped(tokens, 0)
  {
    hide IsWrapper;
    var i := 0;
    while i < |tokens| && IsWrapper(tokens[i], i)
      invariant 0 <= i <= |tokens|
      invariant Unwrapped(tokens, 0) == Unwrapped(tokens[i..], i)
    {
      assert tokens[i..][1..] == tokens[i + 1..];
      i := i + 1;
    }
    rest := tokens[i..];
  }

  /** No run of wrappers in front of a command hides it. */
  lemma {:induction false} WrappersDoNotHide(wrappers: seq<string>, tokens: seq<string>, i: nat)
    requires forall k :: 0 <= k < |wrappers| ==> IsWrapper(wrappers[k], i + k)
    requires tokens != [] ==> tokens[0] != "--"
    ensures Unwrapped(wrappers + tokens, i) == Unwrapped(tokens, 0)
    decreases |wrappers|
  {
    hide IsAssignment;
    if wrappers == [] {
      assert wrappers + tokens == tokens;
      if tokens != [] && IsWrapper(tokens[0], 0) { UnwrappedMid(tokens[1..], i + 1, 1); }
    } else {
      assert (wrappers + tokens)[1..] == wrappers[1..] + tokens;
      assert IsWrapper(wrappers[0], i + 0);
      forall k | 0 <= k < |wrappers[1..]| ensures IsWrapper(wrappers[1..][k], i + 1 + k) {
        assert IsWrapper(wrappers[k + 1], i + (k + 1));
      }
      WrappersDoNotHide(wrappers[1..], tokens, i + 1);
    }
  }

  lemma {:induction false} UnwrappedMid(tokens: seq<string>, i: nat, j: nat)
    requires i > 0 && j > 0
    ensures Unwrapped(tokens, i) == Unwrapped(tokens, j)
  {
    hide IsAssignment;
    if tokens != [] && IsWrapper(tokens[0], i) { UnwrappedMid(tokens[1..], i + 1, j + 1); }
  }

  // ----------------------------------------------------------------------------------- patterns

  /** Behind the last slash. */
  function Basename(token: string): string {
    if token == "" || token[|token| - 1] == '/' then "" else Basename(token[..|token| - 1]) + [token[|token| - 1]]
  }

  /** The pattern tokens are matched by command tokens `at[0] < at[1] < …`. */
  ghost predicate Embeds(pat: seq<string>, tokens: seq<string>, at: seq<nat>) {
    && |at| == |pat|
    && (forall k :: 0 <= k < |at| ==> at[k] < |tokens| && TokenMatches(pat[k], tokens[at[k]]))
    && forall k :: 0 < k < |at| ==> at[k - 1] < at[k]
  }

  ghost predicate Embeddable(pat: seq<string>, tokens: seq<string>) {
    exists at :: Embeds(pat, tokens, at)
  }

  /** Taking the first matching token every time. */
  predicate Greedy(pat: seq<string>, tokens: seq<string>) {
    if pat == [] then true
    else if tokens == [] then false
    else if TokenMatches(pat[0], tokens[0]) then Greedy(pat[1..], tokens[1..])
    else Greedy(pat, tokens[1..])
  }

  lemma {:induction false} GreedyIff(pat: seq<string>, tokens: seq<string>)
    ensures Greedy(pat, tokens) <==> Embeddable(pat, tokens)
    decreases |tokens|
  {
    hide TokenMatches, Embeddable, Embeds;
    EmbedStep(pat, tokens);
    if pat != [] && tokens != [] {
      GreedyIff(pat[1..], tokens[1..]);
      GreedyIff(pat, tokens[1..]);
    }
  }

  lemma EmbedStep(pat: seq<string>, tokens: seq<string>)
    ensures pat == [] ==> Embeddable(pat, tokens)
    ensures pat != [] && tokens == [] ==> !Embeddable(pat, tokens)
    ensures pat != [] && tokens != [] ==>
      (Embeddable(pat, tokens) <==>
       if TokenMatches(pat[0], tokens[0]) then Embeddable(pat[1..], tokens[1..]) else Embeddable(pat, tokens[1..]))
  {
    hide TokenMatches, Embeds;
    if pat == [] {
      EmptyEmbeds(tokens);
    } else {
      if at :| Embeds(pat, tokens, at) {
        NotInNone(pat, tokens, at);
        if TokenMatches(pat[0], tokens[0]) { TailOf(pat, tokens, at); } else { Shifted(pat, tokens, at); }
      }
      if tokens != [] {
        if TokenMatches(pat[0], tokens[0]) {
          if at :| Embeds(pat[1..], tokens[1..], at) { Extended(pat, tokens, at); }
        } else if at :| Embeds(pat, tokens[1..], at) {
          Unshifted(pat, tokens, at);
        }
      }
    }
  }

  lemma EmptyEmbeds(tokens: seq<string>)
    ensures Embeds([], tokens, [])
  {}

  lemma NotInNone(pat: seq<string>, tokens: seq<string>, at: seq<nat>)
    requires pat != [] && Embeds(pat, tokens, at)
    ensures tokens != []
  {
    assert at[0] < |tokens|;
  }

  function Down(at: seq<nat>): seq<nat>
    requires forall k :: 0 <= k < |at| ==> at[k] > 0
  {
    seq(|at|, k requires 0 <= k < |at| => at[k] - 1)
  }

  function Up(at: seq<nat>, n: nat): seq<nat> {
    seq(|at|, k requires 0 <= k < |at| => at[k] + n)
  }

  lemma {:induction false} Increasing(pat: seq<string>, tokens: seq<string>, at: seq<nat>, k: nat)
    requires Embeds(pat, tokens, at) && k < |at|
    ensures at[k] >= at[0] + k
  {
    if k > 0 {
      Increasing(pat, tokens, at, k - 1);
      assert at[k - 1] < at[k];
    }
  }

  lemma TailOf(pat: seq<string>, tokens: seq<string>, at: seq<nat>)
    requires pat != [] && tokens != [] && Embeds(pat, tokens, at)
    ensures Embeddable(pat[1..], tokens[1..])
  {
    forall k | 0 <= k < |at| - 1 ensures at[1..][k] > 0 { Increasing(pat, tokens, at, k + 1); }
    hide TokenMatches;
    assert Embeds(pat[1..], tokens[1..], Down(at[1..]));
  }

  lemma Shifted(pat: seq<string>, tokens: seq<string>, at: seq<nat>)
    requires pat != [] && tokens != [] && Embeds(pat, tokens, at) && !TokenMatches(pat[0], tokens[0])
    ensures Embeddable(pat, tokens[1..])
  {
    hide TokenMatches;
    assert at[0] > 0;
    forall k | 0 <= k < |at| ensures at[k] > 0 { Increasing(pat, tokens, at, k); }
    assert Embeds(pat, tokens[1..], Down(at));
  }

  lemma Extended(pat: seq<string>, tokens: seq<string>, at: seq<nat>)
    requires pat != [] && tokens != [] && TokenMatches(pat[0], tokens[0]) && Embeds(pat[1..], tokens[1..], at)
    ensures Embeddable(pat, tokens)
  {
    hide TokenMatches;
    assert Embeds(pat, tokens, [0] + Up(at, 1));
  }

  lemma Unshifted(pat: seq<string>, tokens: seq<string>, at: seq<nat>)
    requires tokens != [] && Embeds(pat, tokens[1..], at)
    ensures Embeddable(pat, tokens)
  {
    hide TokenMatches;
    assert Embeds(pat, tokens, Up(at, 1));
  }

  /** The first token is anchored on the command's basename, the others match in order. */
  predicate PatternMatches(pattern: string, tokens: seq<string>) {
    var pat := Words(pattern, "");
    pat != [] && tokens != [] && TokenMatches(pat[0], Basename(tokens[0])) && Greedy(pat[1..], tokens[1..])
  }

  method MatchesPattern(pattern: string, tokens: seq<string>) returns (r: bool)
    ensures r == PatternMatches(pattern, tokens)
    ensures r <==> var pat := Words(pattern, "");
      pat != [] && tokens != [] && TokenMatches(pat[0], Basename(tokens[0])) && Embeddable(pat[1..], tokens[1..])
  {
    hide TokenMatches, Words, Basename, Embeddable;
    var pat := Words(pattern, "");
    if pat == [] || tokens == [] { return false; }
    GreedyIff(pat[1..], tokens[1..]);
    if !TokenMatches(pat[0], Basename(tokens[0])) { return false; }
    var ci := 1;
    for pi := 1 to |pat|
      invariant 1 <= ci <= |tokens|
      invariant Greedy(pat[1..], tokens[1..]) <==> Greedy(pat[pi..], tokens[ci..])
    {
      var found := false;
      while ci < |tokens| && !found
        invariant 1 <= ci <= |tokens|
        invariant Greedy(pat[1..], tokens[1..]) <==> Greedy(pat[if found then pi + 1 else pi..], tokens[ci..])
        decreases |tokens| - ci, !found
      {
        assert tokens[ci..][1..] == tokens[ci + 1..] && pat[pi..][1..] == pat[pi + 1..];
        found := TokenMatches(pat[pi], tokens[ci]);
        ci := ci + 1;
      }
      if !found { return false; }
    }
    return true;
  }

  /** Tokens put anywhere behind the command never un-match a pattern. */
  lemma InsertedStillMatches(pattern: string, tokens: seq<string>, extra: seq<string>, k: nat)
    requires 0 < k <= |tokens| && PatternMatches(pattern, tokens)
    ensures PatternMatches(pattern, tokens[..k] + extra + tokens[k..])
  {
    hide TokenMatches, Words, Basename, Greedy, Embeddable;
    var pat, more := Words(pattern, ""), tokens[..k] + extra + tokens[k..];
    GreedyIff(pat[1..], tokens[1..]);
    assert more[1..] == tokens[1..][..k - 1] + extra + tokens[1..][k - 1..];
    InsertedEmbeds(pat[1..], tokens[1..], extra, k - 1);
    GreedyIff(pat[1..], more[1..]);
  }

  function Past(at: seq<nat>, k: nat, n: nat): seq<nat> {
    seq(|at|, i requires 0 <= i < |at| => if at[i] < k then at[i] else at[i] + n)
  }

  lemma InsertedEmbeds(pat: seq<string>, tokens: seq<string>, extra: seq<string>, k: nat)
    requires k <= |tokens| && Embeddable(pat, tokens)
    ensures Embeddable(pat, tokens[..k] + extra + tokens[k..])
  {
    hide TokenMatches;
    var at :| Embeds(pat, tokens, at);
    var more := tokens[..k] + extra + tokens[k..];
    assert forall i :: 0 <= i < |tokens| ==> more[if i < k then i else i + |extra|] == tokens[i];
    assert Embeds(pat, more, Past(at, k, |extra|));
  }

  // ------------------------------------------------------------------------------------ verdicts

  datatype Action = Deny | Allow
  datatype Rule = Rule(pattern: string, action: Action)
  datatype Decision = Runs | Denied(pattern: string)

  /** The first rule that matches decides about one command. */
  function Decide(tokens: seq<string>, rules: seq<Rule>): Decision {
    if tokens == [] || rules == [] then Runs
    else if !PatternMatches(rules[0].pattern, tokens) then Decide(tokens, rules[1..])
    else if rules[0].action.Deny? then Denied(rules[0].pattern)
    else Runs
  }

  function DecideAll(subs: seq<string>, rules: seq<Rule>): Decision {
    if subs == [] then Runs
    else
      var d := Decide(Unwrapped(Tokens(subs[0]), 0), rules);
      if d.Denied? then d else DecideAll(subs[1..], rules)
  }

  function Evaluate(command: string, rules: seq<Rule>): Decision {
    DecideAll(Subcommands(command), rules)
  }

  method EvaluateCommand(command: string, rules: seq<Rule>) returns (d: Decision)
    ensures d == Evaluate(command, rules)
  {
    hide Tokens, Unwrapped, Subcommands, Decide;
    var subs := SplitCompound(command);
    assert subs[0..] == subs;
    for i := 0 to |subs|
      invariant DecideAll(subs, rules) == DecideAll(subs[i..], rules)
    {
      assert subs[i..][0] == subs[i] && subs[i..][1..] == subs[i + 1..];
      var all := Tokenize(subs[i]);
      var tokens := SkipCommandPrefixes(all);
      d := EvaluateTokens(tokens, rules);
      if d.Denied? { return d; }
    }
    return Runs;
  }

  method EvaluateTokens(tokens: seq<string>, rules: seq<Rule>) returns (d: Decision)
    ensures d == Decide(tokens, rules)
  {
    hide PatternMatches;
    if tokens == [] { return Runs; }
    assert rules[0..] == rules;
    for j := 0 to |rules|
      invariant Decide(tokens, rules) == Decide(tokens, rules[j..])
    {
      assert rules[j..][0] == rules[j] && rules[j..][1..] == rules[j + 1..];
      var matched := MatchesPattern(rules[j].pattern, tokens);
      if matched { return if rules[j].action.Deny? then Denied(rules[j].pattern) else Runs; }
    }
    return Runs;
  }

  /** Under deny rules alone, arguments put anywhere behind the command never lift a denial. */
  lemma {:induction false} InsertedStillDenied(tokens: seq<string>, extra: seq<string>, k: nat, rules: seq<Rule>)
    requires 0 < k <= |tokens| && Decide(tokens, rules).Denied?
    requires forall rule :: rule in rules ==> rule.action.Deny?
    ensures Decide(tokens[..k] + extra + tokens[k..], rules).Denied?
    decreases |rules|
  {
    hide PatternMatches;
    if PatternMatches(rules[0].pattern, tokens) {
      InsertedStillMatches(rules[0].pattern, tokens, extra, k);
    } else {
      InsertedStillDenied(tokens, extra, k, rules[1..]);
    }
  }

  // ------------------------------------------------------------------------------------ sequences

  function QuoteBehind(s: string, quote: Option<char>): Option<char> {
    if s == "" then quote else QuoteBehind(s[1..], Quoting(quote, s[0]))
  }

  /** Cutting at every single operator character. */
  function PlainPieces(s: string, cur: string, quote: Option<char>): seq<string>
    decreases |s|
  {
    if s == "" then [cur]
    else if quote.Some? || !IsOperator(s[0]) then PlainPieces(s[1..], cur + [s[0]], Quoting(quote, s[0]))
    else [cur] + PlainPieces(s[1..], "", None)
  }

  lemma {:induction false} KeptConcat(a: seq<string>, b: seq<string>)
    ensures Kept(a + b) == Kept(a) + Kept(b)
  {
    hide Trim;
    if a == [] {
      assert a + b == b;
    } else {
      assert (a + b)[1..] == a[1..] + b;
      KeptConcat(a[1..], b);
    }
  }

  lemma KeptNone()
    ensures Kept([""]) == []
  {
    var parts := [""];
    TrimBlank("");
    assert Kept(parts[1..]) == [];
  }

  /** `&&` and `||` need no case of their own: the piece between the two characters is dropped. */
  lemma {:induction false} DoubledOrNot(s: string, cur: string, quote: Option<char>)
    ensures Kept(Pieces(s, cur, quote)) == Kept(PlainPieces(s, cur, quote))
    decreases |s|
  {
    hide Kept;
    if s != "" {
      if quote.Some? || !IsOperator(s[0]) {
        DoubledOrNot(s[1..], cur + [s[0]], Quoting(quote, s[0]));
      } else {
        var n := if Doubled(s) then 2 else 1;
        DoubledOrNot(s[n..], "", None);
        KeptConcat([cur], Pieces(s[n..], "", None));
        KeptConcat([cur], PlainPieces(s[1..], "", None));
        if Doubled(s) {
          KeptConcat([""], PlainPieces(s[2..], "", None));
          KeptNone();
          assert s[1..][1..] == s[2..];
        }
      }
    }
  }

  lemma {:induction false} PlainSequence(a: string, op: char, b: string, cur: string, quote: Option<char>)
    requires IsOperator(op) && QuoteBehind(a, quote) == None
    ensures PlainPieces(a + [op] + b, cur, quote) == PlainPieces(a, cur, quote) + PlainPieces(b, "", None)
    decreases |a|
  {
    var s := a + [op] + b;
    if a == "" {
      assert s[1..] == b;
    } else {
      assert s[1..] == a[1..] + [op] + b;
      if quote.Some? || !IsOperator(a[0]) {
        PlainSequence(a[1..], op, b, cur + [a[0]], Quoting(quote, a[0]));
      } else {
        PlainSequence(a[1..], op, b, "", None);
      }
    }
  }

  predicate IsOperatorText(op: string) {
    op == "&&" || op == "||" || op == "|" || op == "&" || op == ";" || op == "\n"
  }

  lemma SubcommandsOfSequence(a: string, op: string, b: string)
    requires IsOperatorText(op) && QuoteBehind(a, None) == None
    ensures Subcommands(a + op + b) == Subcommands(a) + Subcommands(b)
  {
    hide Pieces, PlainPieces, Kept, QuoteBehind;
    DoubledOrNot(a, "", None);
    DoubledOrNot(b, "", None);
    DoubledOrNot(a + op + b, "", None);
    KeptConcat(PlainPieces(a, "", None), PlainPieces(b, "", None));
    if |op| == 1 {
      assert op == [op[0]];
      PlainSequence(a, op[0], b, "", None);
    } else {
      var tail := [op[1]] + b;
      assert a + op + b == a + [op[0]] + tail;
      PlainSequence(a, op[0], tail, "", None);
      assert QuoteBehind("", None) == None by { NothingBehind(); }
      assert "" + [op[1]] + b == tail;
      PlainSequence("", op[1], b, "", None);
      assert PlainPieces("", "", None) == [""] by { NothingBehind(); }
      KeptConcat([""], PlainPieces(b, "", None));
      KeptConcat(PlainPieces(a, "", None), PlainPieces(tail, "", None));
      KeptNone();
    }
  }

  lemma NothingBehind()
    ensures QuoteBehind("", None) == None && PlainPieces("", "", None) == [""]
  {}

  lemma {:induction false} DecideConcat(a: seq<string>, b: seq<string>, rules: seq<Rule>)
    ensures DecideAll(a + b, rules) == if DecideAll(a, rules).Denied? then DecideAll(a, rules) else DecideAll(b, rules)
  {
    hide Decide, Unwrapped, Tokens;
    if a == [] {
      assert a + b == b;
    } else {
      assert (a + b)[1..] == a[1..] + b;
      DecideConcat(a[1..], b, rules);
    }
  }

  /** A sequence is denied exactly when one of its commands is, and for the first of them. */
  lemma SequenceDenied(a: string, op: string, b: string, rules: seq<Rule>)
    requires IsOperatorText(op) && QuoteBehind(a, None) == None
    ensures Evaluate(a + op + b, rules) == if Evaluate(a, rules).Denied? then Evaluate(a, rules) else Evaluate(b, rules)
  {
    hide Subcommands, DecideAll, QuoteBehind;
    SubcommandsOfSequence(a, op, b);
    DecideConcat(Subcommands(a), Subcommands(b), rules);
  }

  // ------------------------------------------------------------------------------ quoted commands

  /** The tokens as one command line, each in double quotes. */
  function Line(tokens: seq<string>): string {
    if tokens == [] then ""
    else ['"'] + tokens[0] + ['"'] + if |tokens| == 1 then "" else " " + Line(tokens[1..])
  }

  ghost predicate Quotable(tokens: seq<string>) {
    forall t :: t in tokens ==> '"' !in t
  }

  lemma {:induction false} QuotedToken(t: string, rest: string, cur: string)
    requires '"' !in t
    ensures TokensFrom(t + ['"'] + rest, cur, true, Some('"')) == TokensFrom(rest, cur + t, true, None)
    decreases |t|
  {
    var s := t + ['"'] + rest;
    if t == "" {
      assert s[1..] == rest && cur + t == cur;
    } else {
      assert s[1..] == t[1..] + ['"'] + rest && cur + [t[0]] + t[1..] == cur + t;
      QuotedToken(t[1..], rest, cur + [t[0]]);
    }
  }

  lemma {:induction false} LineTokens(tokens: seq<string>)
    requires Quotable(tokens)
    ensures Tokens(Line(tokens)) == tokens
    decreases |tokens|
  {
    if tokens != [] {
      var t, tail := tokens[0], if |tokens| == 1 then "" else " " + Line(tokens[1..]);
      var s := Line(tokens);
      assert s[1..] == t + ['"'] + tail;
      assert Tokens(s) == TokensFrom(t + ['"'] + tail, "", true, Some('"')) by { hide Line; }
      QuotedToken(t, tail, "");
      assert "" + t == t;
      if |tokens| == 1 {
        assert tokens == [t];
      } else {
        assert tail[1..] == Line(tokens[1..]);
        LineTokens(tokens[1..]);
        assert tokens == [t] + tokens[1..];
      }
    }
  }

  lemma {:induction false} QuotedPiece(t: string, rest: string, cur: string)
    requires '"' !in t
    ensures PlainPieces(t + ['"'] + rest, cur, Some('"')) == PlainPieces(rest, cur + t + ['"'], None)
    decreases |t|
  {
    var s := t + ['"'] + rest;
    if t == "" {
      assert s[1..] == rest && cur + t == cur;
    } else {
      assert s[1..] == t[1..] + ['"'] + rest && cur + [t[0]] + t[1..] == cur + t;
      QuotedPiece(t[1..], rest, cur + [t[0]]);
    }
  }

  lemma {:induction false} LinePieces(tokens: seq<string>, cur: string)
    requires Quotable(tokens)
    ensures PlainPieces(Line(tokens), cur, None) == [cur + Line(tokens)]
    decreases |tokens|
  {
    if tokens == [] {
      assert cur + "" == cur;
    } else {
      var t, tail := tokens[0], if |tokens| == 1 then "" else " " + Line(tokens[1..]);
      var s, cur' := Line(tokens), cur + ['"'] + t + ['"'];
      assert s[1..] == t + ['"'] + tail;
      QuotedPiece(t, tail, cur + ['"']);
      assert cur + s == cur' + tail;
      assert PlainPieces(s, cur, None) == PlainPieces(tail, cur', None) by { hide Line, Quotable; }
      if |tokens| > 1 {
        assert tail[1..] == Line(tokens[1..]);
        LinePieces(tokens[1..], cur' + " ");
        assert cur' + " " + Line(tokens[1..]) == cur' + tail;
      } else {
        assert cur' + "" == cur';
      }
    }
  }

  lemma {:induction false} LineEnds(tokens: seq<string>)
    requires tokens != []
    ensures var s := Line(tokens); s != "" && s[0] == '"' && s[|s| - 1] == '"'
  {
    if |tokens| > 1 { LineEnds(tokens[1..]); }
  }

  /** Operators and spaces inside quotes never split: a quoted command is judged by its own tokens. */
  lemma QuotedCommandIsOne(tokens: seq<string>, rules: seq<Rule>)
    requires tokens != [] && Quotable(tokens)
    ensures Subcommands(Line(tokens)) == [Line(tokens)]
    ensures Evaluate(Line(tokens), rules) == Decide(Unwrapped(tokens, 0), rules)
  {
    hide Pieces, PlainPieces, Line, Tokens, Unwrapped, Decide, Kept, DecideAll;
    var s := Line(tokens);
    LineTokens(tokens);
    LinePieces(tokens, "");
    DoubledOrNot(s, "", None);
    LineEnds(tokens);
    assert "" + s == s;
    KeptOne(s);
    DecideOne(s, rules);
  }

  lemma DecideOne(s: string, rules: seq<Rule>)
    ensures DecideAll([s], rules) == Decide(Unwrapped(Tokens(s), 0), rules)
  {
    hide Decide, Unwrapped, Tokens;
    var subs := [s];
    assert DecideAll(subs[1..], rules) == Runs;
  }

  lemma KeptOne(s: string)
    requires s != "" && !IsSpace(s[0]) && !IsSpace(s[|s| - 1])
    ensures Kept([s]) == [s]
  {
    hide IsSpace, Trim;
    TrimSame(s);
    var parts := [s];
    assert parts[1..] == [];
    KeptStep(parts);
  }

  lemma KeptStep(parts: seq<string>)
    requires |parts| == 1
    ensures Kept(parts) == if Trim(parts[0]) == "" then [] else [Trim(parts[0])]
  {
    hide Trim;
    assert Kept(parts[1..]) == [];
  }
}
