/**
 * Whole command lines and scripts, written as a shell user writes them, and the verdict on them: bare
 * and quoted pieces make tokens, tokens between white space make commands, operators separate commands.
 */
module CommandLines {
  import opened Options
  import opened Text
  import opened Spacing
  import opened TokenPatterns
  import opened CommandRules

  // ------------------------------------------------------------------------------------- writing

  /** Part of a token: bare characters, or any text between two quotes that it does not hold. */
  datatype Piece = Bare(text: string) | Quoted(mark: char, text: string)

  predicate IsBare(c: char) { c !in "\"'|&;" && !IsSpace(c) }

  predicate Writable(p: Piece) {
    match p
    case Bare(text) => text != "" && forall c :: c in text ==> IsBare(c)
    case Quoted(mark, text) => (mark == '"' || mark == '\'') && mark !in text
  }

  type Token = seq<Piece>

  ghost predicate WritableToken(t: Token) {
    t != [] && forall p :: p in t ==> Writable(p)
  }

  function Write(p: Piece): string {
    match p
    case Bare(text) => text
    case Quoted(mark, text) => [mark] + (text + [mark])
  }

  function WriteToken(t: Token): string {
    if t == [] then "" else Write(t[0]) + WriteToken(t[1..])
  }

  /** What the token stands for: its texts without the quotes. */
  function Value(t: Token): string {
    if t == [] then "" else t[0].text + Value(t[1..])
  }

  function Values(ts: seq<Token>): seq<string> {
    if ts == [] then [] else [Value(ts[0])] + Values(ts[1..])
  }

  function WriteTokens(ts: seq<Token>): (r: seq<string>)
    ensures |r| == |ts|
  {
    if ts == [] then [] else [WriteToken(ts[0])] + WriteTokens(ts[1..])
  }

  /** White space that does not end a command. */
  predicate IsBlank(s: string) {
    forall c :: c in s ==> IsSpace(c) && c != '\n'
  }

  /** One command: tokens with white space around them and between any two. */
  datatype Command = Command(gaps: seq<string>, tokens: seq<Token>)

  ghost predicate WritableCommand(c: Command) {
    && |c.gaps| == |c.tokens| + 1
    && (forall k :: 0 <= k < |c.gaps| ==> IsBlank(c.gaps[k]))
    && (forall k :: 0 <= k < |c.tokens| ==> WritableToken(c.tokens[k]))
    && forall k :: 0 < k < |c.tokens| ==> c.gaps[k] != ""
  }

  function WriteCommand(c: Command): string
    requires |c.gaps| == |c.tokens| + 1
  {
    Weave(c.gaps, WriteTokens(c.tokens))
  }

  function Tail(c: Command): Command
    requires c.tokens != [] && |c.gaps| == |c.tokens| + 1
  {
    Command(c.gaps[1..], c.tokens[1..])
  }

  lemma TailWritable(c: Command)
    requires WritableCommand(c) && c.tokens != []
    ensures WritableCommand(Tail(c)) && IsBlank(c.gaps[0]) && WritableToken(c.tokens[0])
    ensures |c.tokens| > 1 ==> c.gaps[1] != ""
  {
    hide IsBlank, WritableToken;
  }

  lemma WriteStep(c: Command)
    requires |c.gaps| == |c.tokens| + 1
    ensures WriteCommand(c) ==
      if c.tokens == [] then c.gaps[0] else c.gaps[0] + (WriteToken(c.tokens[0]) + WriteCommand(Tail(c)))
  {
    hide WriteToken;
    if c.tokens != [] { assert WriteTokens(c.tokens)[1..] == WriteTokens(c.tokens[1..]); }
  }

  /** Behind a token nothing follows, or white space. */
  lemma BehindToken(c: Command)
    requires WritableCommand(c) && (c.tokens != [] ==> c.gaps[0] != "")
    ensures var s := WriteCommand(c); s == "" || IsSpace(s[0])
  {
    WriteStep(c);
    assert IsBlank(c.gaps[0]);
    hide WriteCommand, IsSpace, WriteToken;
    if c.gaps[0] != "" { assert c.gaps[0][0] in c.gaps[0]; }
  }

  // ------------------------------------------------------------------------------------ the tokens

  lemma {:induction false} TokensGap(g: string, rest: string)
    requires IsBlank(g)
    ensures TokensFrom(g + rest, "", false, None) == TokensFrom(rest, "", false, None)
    decreases |g|
  {
    if g == "" {
      assert g + rest == rest;
    } else {
      assert g[0] in g && (g + rest)[1..] == g[1..] + rest;
      SpaceIsNoQuote(g[0]);
      hide IsSpace;
      TokensGap(g[1..], rest);
    }
  }

  lemma SpaceIsNoQuote(c: char)
    ensures IsSpace(c) ==> !IsQuote(c)
  {}

  lemma BareIsPlain(c: char)
    requires IsBare(c)
    ensures !IsQuote(c) && !IsSpace(c) && !IsOperator(c)
  {}

  lemma {:induction false} TokensBare(w: string, rest: string, cur: string, open: bool)
    requires w != "" && forall c :: c in w ==> IsBare(c)
    ensures TokensFrom(w + rest, cur, open, None) == TokensFrom(rest, cur + w, true, None)
    decreases |w|
  {
    assert w[0] in w && IsBare(w[0]);
    BareIsPlain(w[0]);
    hide IsSpace, IsQuote, IsOperator, IsBare;
    assert w[0] in w && (w + rest)[1..] == w[1..] + rest && cur + [w[0]] + w[1..] == cur + w;
    if |w| == 1 {
      assert w[1..] + rest == rest && cur + [w[0]] == cur + w;
    } else {
      TokensBare(w[1..], rest, cur + [w[0]], true);
    }
  }

  lemma {:induction false} TokensQuoted(mark: char, text: string, rest: string, cur: string)
    requires mark !in text
    ensures TokensFrom(text + [mark] + rest, cur, true, Some(mark)) == TokensFrom(rest, cur + text, true, None)
    decreases |text|
  {
    var s := text + [mark] + rest;
    if text == "" {
      assert s[1..] == rest && cur + text == cur;
    } else {
      assert s[1..] == text[1..] + [mark] + rest && cur + [text[0]] + text[1..] == cur + text;
      TokensQuoted(mark, text[1..], rest, cur + [text[0]]);
    }
  }

  lemma TokensPiece(p: Piece, rest: string, cur: string, open: bool)
    requires Writable(p)
    ensures TokensFrom(Write(p) + rest, cur, open, None) == TokensFrom(rest, cur + p.text, true, None)
  {
    match p {
      case Bare(text) => TokensBare(text, rest, cur, open);
      case Quoted(mark, text) =>
        var s := Write(p) + rest;
        assert s[0] == mark && s[1..] == text + [mark] + rest;
        TokensQuoted(mark, text, rest, cur);
    }
  }

  lemma {:induction false} TokensToken(t: Token, rest: string, cur: string, open: bool)
    requires WritableToken(t)
    ensures TokensFrom(WriteToken(t) + rest, cur, open, None) == TokensFrom(rest, cur + Value(t), true, None)
    decreases |t|
  {
    hide Writable, Write, TokensFrom;
    var more := t[1..];
    assert t[0] in t;
    TokensPiece(t[0], WriteToken(more) + rest, cur, open);
    assert WriteToken(t) + rest == Write(t[0]) + (WriteToken(more) + rest);
    if more == [] {
      assert WriteToken(more) + rest == rest && t[0].text + Value(more) == t[0].text;
    } else {
      TokensToken(more, rest, cur + t[0].text, true);
      assert cur + t[0].text + Value(more) == cur + (t[0].text + Value(more));
    }
  }

  lemma TokensClose(s: string, cur: string)
    requires s == "" || IsSpace(s[0])
    ensures TokensFrom(s, cur, true, None) == [cur] + TokensFrom(s, "", false, None)
  {
    if s != "" { SpaceIsNoQuote(s[0]); }
    hide IsSpace, IsQuote;
  }

  /** Cutting a written command gives the values of its tokens. */
  lemma {:induction false} TokensOfCommand(c: Command)
    requires WritableCommand(c)
    ensures Tokens(WriteCommand(c)) == Values(c.tokens)
    decreases |c.tokens|
  {
    hide WriteCommand, WriteToken, Value, WritableToken, IsBlank, TokensFrom, IsSpace;
    WriteStep(c);
    if c.tokens == [] {
      assert IsBlank(c.gaps[0]) && c.gaps[0] + "" == c.gaps[0];
      TokensGap(c.gaps[0], "");
      NoTokens();
    } else {
      TailWritable(c);
      var t, rest := c.tokens[0], WriteCommand(Tail(c));
      TokensGap(c.gaps[0], WriteToken(t) + rest);
      TokensToken(t, rest, "", false);
      assert "" + Value(t) == Value(t);
      BehindToken(Tail(c));
      TokensClose(rest, Value(t));
      TokensOfCommand(Tail(c));
    }
  }

  lemma NoTokens()
    ensures TokensFrom("", "", false, None) == []
  {}

  // ---------------------------------------------------------------------------------- the commands

  /** Reading `s` outside quotes cuts nothing and ends outside quotes. */
  ghost predicate Whole(s: string) {
    && QuoteBehind(s, None) == None
    && forall rest, cur :: PlainPieces(s + rest, cur, None) == PlainPieces(rest, cur + s, None)
  }

  lemma WholeConcat(a: string, b: string)
    requires Whole(a) && Whole(b)
    ensures Whole(a + b)
  {
    hide PlainPieces;
    forall rest, cur ensures PlainPieces(a + b + rest, cur, None) == PlainPieces(rest, cur + (a + b), None) {
      assert a + b + rest == a + (b + rest) && cur + (a + b) == cur + a + b;
    }
    QuoteConcat(a, b, None);
  }

  lemma {:induction false} QuoteConcat(a: string, b: string, quote: Option<char>)
    ensures QuoteBehind(a + b, quote) == QuoteBehind(b, QuoteBehind(a, quote))
    decreases |a|
  {
    hide Quoting;
    if a == "" {
      assert a + b == b;
    } else {
      assert (a + b)[1..] == a[1..] + b;
      QuoteConcat(a[1..], b, Quoting(quote, a[0]));
    }
  }

  /** Characters that neither quote nor separate. */
  lemma {:induction false} PlainWhole(s: string)
    requires forall c :: c in s ==> !IsQuote(c) && !IsOperator(c)
    ensures Whole(s)
    decreases |s|
  {
    hide IsQuote, IsOperator;
    if s == "" {
      forall rest: string, cur ensures PlainPieces(s + rest, cur, None) == PlainPieces(rest, cur + s, None) {
        assert s + rest == rest && cur + s == cur;
      }
    } else {
      assert s[0] in s;
      PlainWhole(s[1..]);
      forall rest, cur ensures PlainPieces(s + rest, cur, None) == PlainPieces(rest, cur + s, None) {
        assert (s + rest)[1..] == s[1..] + rest && cur + [s[0]] + s[1..] == cur + s;
      }
    }
  }

  lemma {:induction false} QuotedPieces(mark: char, text: string, rest: string, cur: string)
    requires mark !in text
    ensures PlainPieces(text + [mark] + rest, cur, Some(mark)) == PlainPieces(rest, cur + text + [mark], None)
    ensures QuoteBehind(text + [mark], Some(mark)) == None
    decreases |text|
  {
    var s := text + [mark] + rest;
    if text == "" {
      assert s[1..] == rest && cur + text == cur;
      assert text + [mark] == [mark] && [mark][1..] == "";
    } else {
      assert s[1..] == text[1..] + [mark] + rest && cur + [text[0]] + text[1..] == cur + text;
      assert (text + [mark])[1..] == text[1..] + [mark];
      QuotedPieces(mark, text[1..], rest, cur + [text[0]]);
    }
  }

  lemma QuotedWhole(mark: char, text: string)
    requires IsQuote(mark) && mark !in text
    ensures Whole([mark] + (text + [mark]))
  {
    var s := [mark] + (text + [mark]);
    assert s[1..] == text + [mark];
    QuotedPieces(mark, text, "", "");
    forall rest, cur ensures PlainPieces(s + rest, cur, None) == PlainPieces(rest, cur + s, None) {
      assert (s + rest)[0] == mark && (s + rest)[1..] == text + [mark] + rest;
      QuotedPieces(mark, text, rest, cur + [mark]);
      assert cur + [mark] + text + [mark] == cur + s;
    }
  }

  lemma PieceWhole(p: Piece)
    requires Writable(p)
    ensures Whole(Write(p))
  {
    match p {
      case Bare(text) => PlainWhole(text);
      case Quoted(mark, text) => QuotedWhole(mark, text);
    }
  }

  lemma {:induction false} TokenWhole(t: Token)
    requires forall p :: p in t ==> Writable(p)
    ensures Whole(WriteToken(t))
    decreases |t|
  {
    hide Whole, Writable, Write;
    if t == [] {
      PlainWhole("");
    } else {
      assert t[0] in t;
      PieceWhole(t[0]);
      TokenWhole(t[1..]);
      WholeConcat(Write(t[0]), WriteToken(t[1..]));
    }
  }

  lemma {:induction false} CommandWhole(c: Command)
    requires WritableCommand(c)
    ensures Whole(WriteCommand(c))
    decreases |c.tokens|
  {
    hide Whole, WriteCommand, WriteToken, Writable;
    WriteStep(c);
    assert IsBlank(c.gaps[0]);
    BlankWhole(c.gaps[0]);
    hide IsBlank;
    if c.tokens != [] {
      TailWritable(c);
      TokenWhole(c.tokens[0]);
      CommandWhole(Tail(c));
      WholeConcat(WriteToken(c.tokens[0]), WriteCommand(Tail(c)));
      WholeConcat(c.gaps[0], WriteToken(c.tokens[0]) + WriteCommand(Tail(c)));
    }
  }

  lemma BlankWhole(g: string)
    requires IsBlank(g)
    ensures Whole(g)
  {
    forall c | c in g ensures !IsQuote(c) && !IsOperator(c) { BlankIsPlain(c); }
    hide Whole;
    PlainWhole(g);
  }

  lemma BlankIsPlain(c: char)
    ensures IsSpace(c) && c != '\n' ==> !IsQuote(c) && !IsOperator(c)
  {}

  // -------------------------------------------------------------- the command without outer space

  /** The command as trimming leaves it. */
  function Bared(c: Command): Command
    requires |c.gaps| == |c.tokens| + 1
  {
    Command(c.gaps[0 := ""][|c.tokens| := ""], c.tokens)
  }

  lemma BaredWritable(c: Command)
    requires WritableCommand(c)
    ensures WritableCommand(Bared(c))
  {
    assert IsBlank("");
    hide IsBlank, WritableToken;
  }

  /** A token begins and ends with no white space. */
  lemma {:induction false} TokenEnds(t: Token)
    requires WritableToken(t)
    ensures var s := WriteToken(t); s != "" && !IsSpace(s[0]) && !IsSpace(s[|s| - 1])
    decreases |t|
  {
    assert t[0] in t;
    PieceEnds(t[0]);
    hide IsSpace, Writable, Write;
    var more := t[1..];
    if more == [] {
      assert Write(t[0]) + WriteToken(more) == Write(t[0]);
    } else {
      TokenEnds(more);
    }
  }

  lemma PieceEnds(p: Piece)
    requires Writable(p)
    ensures var s := Write(p); s != "" && !IsSpace(s[0]) && !IsSpace(s[|s| - 1])
  {
    QuotesAreNoSpace();
    hide IsSpace, IsOperator;
    if p.Bare? { assert p.text[0] in p.text && p.text[|p.text| - 1] in p.text; }
  }

  lemma QuotesAreNoSpace()
    ensures !IsSpace('"') && !IsSpace('\'')
  {}

  lemma LastGap(c: Command)
    requires WritableCommand(c) && c.tokens != []
    ensures var d := Command(c.gaps[|c.tokens| := ""], c.tokens);
      WriteCommand(c) == WriteCommand(d) + c.gaps[|c.tokens|]
  {
    hide Weave;
    LastOfWeave(c.gaps, WriteTokens(c.tokens));
  }

  /** Trimming a command takes exactly its outer white space. */
  lemma TrimCommand(c: Command)
    requires WritableCommand(c)
    ensures c.tokens == [] ==> Trim(WriteCommand(c)) == ""
    ensures c.tokens != [] ==> Trim(WriteCommand(c)) == WriteCommand(Bared(c)) != ""
  {
    hide Trim, WriteCommand, WriteToken, WritableToken, IsSpace;
    WriteStep(c);
    if c.tokens == [] {
      assert IsBlank(c.gaps[0]);
      TrimBlank(c.gaps[0]);
    } else {
      TrimTokens(c);
    }
  }

  lemma TrimTokens(c: Command)
    requires WritableCommand(c) && c.tokens != []
    ensures Trim(WriteCommand(c)) == WriteCommand(Bared(c)) != ""
  {
    DroppedWritable(c);
    GapsAround(c);
    BareEnds(c);
    hide *;
    TrimAround(c.gaps[0], WriteCommand(Bared(c)), c.gaps[|c.tokens|]);
  }

  lemma GapsAround(c: Command)
    requires WritableCommand(c) && c.tokens != []
    ensures WriteCommand(c) == c.gaps[0] + WriteCommand(Bared(c)) + c.gaps[|c.tokens|]
  {
    hide WriteCommand, WriteToken, WritableToken, IsBlank;
    LastGap(c);
    var d := Command(c.gaps[|c.tokens| := ""], c.tokens);
    DroppedWritable(c);
    BaredWritable(c);
    WriteStep(d);
    WriteStep(Bared(c));
    assert Tail(Bared(c)) == Tail(d);
    var s := WriteToken(c.tokens[0]) + WriteCommand(Tail(d));
    assert "" + s == s;
  }

  lemma BareEnds(c: Command)
    requires WritableCommand(c) && c.tokens != []
    ensures var s := WriteCommand(Bared(c)); s != "" && !IsSpace(s[0]) && !IsSpace(s[|s| - 1])
  {
    hide WriteToken, WritableToken, IsBlank, IsSpace, Weave;
    var n := |c.tokens| - 1;
    var bare := Bared(c);
    var words := WriteTokens(c.tokens);
    WrittenTokens(c.tokens, 0);
    WrittenTokens(c.tokens, n);
    TokenEnds(c.tokens[0]);
    TokenEnds(c.tokens[n]);
    var front := WeaveEnds(bare.gaps, words);
    WeaveStep(bare.gaps, words);
    hide *;
    FirstAndLast(words[0], Weave(bare.gaps[1..], words[1..]), front, words[n]);
  }

  lemma {:induction false} WrittenTokens(ts: seq<Token>, k: nat)
    requires k < |ts|
    ensures WriteTokens(ts)[k] == WriteToken(ts[k])
  {
    hide WriteToken;
    if k > 0 { WrittenTokens(ts[1..], k - 1); }
  }

  lemma FirstAndLast(a: string, rest: string, front: string, b: string)
    requires a != "" && b != "" && "" + (a + rest) == front + b
    ensures var s := "" + (a + rest); s != "" && s[0] == a[0] && s[|s| - 1] == b[|b| - 1]
  {}

  lemma DroppedWritable(c: Command)
    requires WritableCommand(c) && c.tokens != []
    ensures WritableCommand(Command(c.gaps[|c.tokens| := ""], c.tokens))
    ensures Blank(c.gaps[0]) && Blank(c.gaps[|c.tokens|])
  {
    assert IsBlank("") && IsBlank(c.gaps[0]) && IsBlank(c.gaps[|c.tokens|]);
    hide IsSpace, WritableToken;
  }

  lemma TrimAround(front: string, s: string, back: string)
    requires Blank(front) && Blank(back) && s != "" && !IsSpace(s[0]) && !IsSpace(s[|s| - 1])
    ensures Trim(front + s + back) == s
  {
    hide IsSpace, TrimStart, TrimEnd;
    assert front + s + back == front + (s + back);
    TrimStartGap(front, s + back);
    TrimStartSame(s + back);
    TrimEndGap(s, back);
    TrimEndSame(s);
  }

  // ------------------------------------------------------------------------------------ the verdict

  /** One command is judged by the values of its tokens, behind any wrappers. */
  lemma CommandVerdict(c: Command, rules: seq<Rule>)
    requires WritableCommand(c)
    ensures Evaluate(WriteCommand(c), rules) == Decide(Unwrapped(Values(c.tokens), 0), rules)
  {
    hide Pieces, PlainPieces, Kept, WriteCommand, Tokens, Decide, Unwrapped, DecideAll, Whole, Trim;
    var s := WriteCommand(c);
    CommandWhole(c);
    WholePiece(s);
    DoubledOrNot(s, "", None);
    TrimCommand(c);
    KeptStep([s]);
    if c.tokens == [] {
      NothingDenied(rules);
      assert Values(c.tokens) == [];
    } else {
      BaredWritable(c);
      TokensOfCommand(Bared(c));
      DecideOne(Trim(s), rules);
    }
  }

  lemma WholePiece(s: string)
    requires Whole(s)
    ensures PlainPieces(s, "", None) == [s]
  {
    assert s + "" == s && "" + s == s;
    assert PlainPieces(s + "", "", None) == PlainPieces("", "" + s, None);
  }

  lemma NothingDenied(rules: seq<Rule>)
    ensures DecideAll([], rules) == Runs && Decide(Unwrapped([], 0), rules) == Runs
  {}

  /** Commands with the operator behind each but the last. */
  datatype Script = One(c: Command) | Then(c: Command, op: string, rest: Script)

  ghost predicate WritableScript(s: Script) {
    WritableCommand(s.c) && (s.Then? ==> IsOperatorText(s.op) && WritableScript(s.rest))
  }

  function WriteScript(s: Script): string
    requires WritableScript(s)
  {
    if s.One? then WriteCommand(s.c) else WriteCommand(s.c) + s.op + WriteScript(s.rest)
  }

  /** The first denial among the commands. */
  function Verdict(s: Script, rules: seq<Rule>): Decision {
    var d := Decide(Unwrapped(Values(s.c.tokens), 0), rules);
    if d.Denied? || s.One? then d else Verdict(s.rest, rules)
  }

  /** A script is judged command by command, whatever its quotes hold. */
  lemma {:induction false} ScriptVerdict(s: Script, rules: seq<Rule>)
    requires WritableScript(s)
    ensures Evaluate(WriteScript(s), rules) == Verdict(s, rules)
    decreases s
  {
    hide Evaluate, Decide, Unwrapped, Values, WriteCommand, Whole;
    CommandVerdict(s.c, rules);
    if s.Then? {
      ScriptVerdict(s.rest, rules);
      CommandWhole(s.c);
      WholeEndsOutside(WriteCommand(s.c));
      SequenceDenied(WriteCommand(s.c), s.op, WriteScript(s.rest), rules);
    }
  }

  lemma WholeEndsOutside(s: string)
    requires Whole(s)
    ensures QuoteBehind(s, None) == None
  {}

  // --------------------------------------------------------------------------------- what a rule means

  /** A pattern is its words: the first for the command's basename, the others in order among the rest. */
  lemma PatternOfWords(pattern: string, words: seq<string>, tokens: seq<string>)
    requires HasWords(pattern, words, Space())
    ensures PatternMatches(pattern, tokens) <==>
      && words != [] && tokens != []
      && TokenMatches(words[0], Basename(tokens[0])) && Embeddable(words[1..], tokens[1..])
  {
    hide HasWords, Words, TokenMatches, Basename, Embeddable, Greedy;
    WordsIff(pattern, words);
    if words != [] && tokens != [] { GreedyIff(words[1..], tokens[1..]); }
  }

  /** One deny rule, written as words, on one written command. */
  lemma OneRuleVerdict(c: Command, pattern: string, words: seq<string>)
    requires WritableCommand(c) && HasWords(pattern, words, Space())
    ensures var tokens := Unwrapped(Values(c.tokens), 0);
      Evaluate(WriteCommand(c), [Rule(pattern, Deny)]) ==
        if words != [] && tokens != [] && TokenMatches(words[0], Basename(tokens[0]))
           && Embeddable(words[1..], tokens[1..]) then Denied(pattern) else Runs
  {
    hide Evaluate, WriteCommand, HasWords, TokenMatches, Embeddable, Basename, PatternMatches, Unwrapped;
    var tokens, rules := Unwrapped(Values(c.tokens), 0), [Rule(pattern, Deny)];
    CommandVerdict(c, rules);
    PatternOfWords(pattern, words, tokens);
    OneRule(tokens, rules);
  }

  lemma OneRule(tokens: seq<string>, rules: seq<Rule>)
    requires |rules| == 1 && rules[0].action == Deny
    ensures Decide(tokens, rules) ==
      if tokens != [] && PatternMatches(rules[0].pattern, tokens) then Denied(rules[0].pattern) else Runs
  {
    hide PatternMatches;
    assert Decide(tokens, rules[1..]) == Runs;
  }

  /** The first rule that matches decides, and a command that none matches runs. */
  lemma {:induction false} FirstMatchDecides(tokens: seq<string>, rules: seq<Rule>, p: string)
    ensures Decide(tokens, rules) == Denied(p) <==>
      tokens != [] && exists k :: FirstMatch(tokens, rules, k) && rules[k] == Rule(p, Deny)
    decreases |rules|
  {
    hide PatternMatches;
    if tokens != [] && rules != [] {
      FirstMatchDecides(tokens, rules[1..], p);
      if PatternMatches(rules[0].pattern, tokens) {
        assert FirstMatch(tokens, rules, 0);
      } else {
        LaterMatch(tokens, rules);
        if k :| FirstMatch(tokens, rules[1..], k) && rules[1..][k] == Rule(p, Deny) {
          assert FirstMatch(tokens, rules, k + 1);
        }
        if k :| FirstMatch(tokens, rules, k) && rules[k] == Rule(p, Deny) {
          assert FirstMatch(tokens, rules[1..], k - 1);
        }
      }
    }
  }

  predicate FirstMatch(tokens: seq<string>, rules: seq<Rule>, k: int) {
    && 0 <= k < |rules| && PatternMatches(rules[k].pattern, tokens)
    && forall j :: 0 <= j < k ==> !PatternMatches(rules[j].pattern, tokens)
  }

  lemma LaterMatch(tokens: seq<string>, rules: seq<Rule>)
    requires rules != [] && !PatternMatches(rules[0].pattern, tokens)
    ensures forall k :: 1 <= k ==> (FirstMatch(tokens, rules, k) <==> FirstMatch(tokens, rules[1..], k - 1))
    ensures !FirstMatch(tokens, rules, 0)
  {
    hide PatternMatches;
    forall k | 1 <= k < |rules| ensures FirstMatch(tokens, rules, k) <==> FirstMatch(tokens, rules[1..], k - 1) {
      assert forall j :: 0 <= j < k - 1 ==> rules[1..][j] == rules[j + 1];
      assert forall j :: 1 <= j < k ==> rules[j] == rules[1..][j - 1];
    }
  }

  // ----------------------------------------------------------------------------- names and wrappers

  /** What stands behind the last slash. */
  lemma {:induction false} BasenameMeans(token: string) returns (dir: string)
    ensures token == dir + Basename(token) && '/' !in Basename(token)
    ensures dir == "" || dir[|dir| - 1] == '/'
    decreases |token|
  {
    if token == "" || token[|token| - 1] == '/' {
      dir := token;
      assert token == token + "";
    } else {
      var n := |token| - 1;
      dir := BasenameMeans(token[..n]);
      assert token == token[..n] + [token[n]];
      assert dir + Basename(token[..n]) + [token[n]] == dir + (Basename(token[..n]) + [token[n]]);
    }
  }

  /** A token that sets a variable. */
  ghost predicate SetsVariable(t: string) {
    exists name, value :: t == name + "=" + value && IsName(name)
  }

  predicate IsName(name: string) {
    && name != "" && !('0' <= name[0] <= '9')
    && forall c :: c in name ==> 'A' <= c <= 'Z' || 'a' <= c <= 'z' || '0' <= c <= '9' || c == '_'
  }

  lemma AssignmentIff(t: string)
    ensures IsAssignment(t) <==> SetsVariable(t)
  {
    if IsAssignment(t) { AssignmentSets(t); }
    if SetsVariable(t) {
      var name, value :| t == name + "=" + value && IsName(name);
      var e := |name|;
      assert t[e] == '=' && t[0] == name[0] && name[0] in name;
      forall k | 0 < k < e ensures IsNamePart(t[k]) {
        assert t[k] == name[k] && name[k] in name;
      }
    }
  }

  lemma AssignmentSets(t: string)
    requires IsAssignment(t)
    ensures SetsVariable(t)
  {
    var e :| 0 < e < |t| && t[e] == '=' && forall k :: 0 < k < e ==> IsNamePart(t[k]);
    var name := t[..e];
    assert t == name + "=" + t[e + 1..];
    forall c | c in name ensures IsNamePart(c) {
      var k :| 0 <= k < e && name[k] == c;
      assert k > 0 ==> IsNamePart(t[k]);
    }
    assert IsName(name);
  }

  /** Variables, `env`, `command` and, behind another wrapper, `--`, and nothing else, are looked through. */
  lemma {:induction false} UnwrappedMeans(tokens: seq<string>, i: nat) returns (n: nat)
    ensures n <= |tokens| && Unwrapped(tokens, i) == tokens[n..]
    ensures forall k :: 0 <= k < n ==>
      SetsVariable(tokens[k]) || tokens[k] == "env" || tokens[k] == "command" || (i + k > 0 && tokens[k] == "--")
    ensures n < |tokens| ==>
      && !SetsVariable(tokens[n]) && tokens[n] != "env" && tokens[n] != "command"
      && (tokens[n] == "--" ==> i + n == 0)
    decreases |tokens|
  {
    hide SetsVariable, IsAssignment;
    n := 0;
    if tokens != [] {
      AssignmentIff(tokens[0]);
      if IsWrapper(tokens[0], i) {
        var m := UnwrappedMeans(tokens[1..], i + 1);
        n := m + 1;
        assert tokens[1..][m..] == tokens[n..];
      }
    }
  }
}
