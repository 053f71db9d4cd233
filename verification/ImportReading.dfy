/**
 * What a reference, a fence and a code span are, said on the text itself, and what the expansion makes
 * of each: every reference of a line is either replaced by its expanded file or left as it stands.
 */
module ImportReading {
  import opened Options
  import opened Text
  import opened Imports

  // ------------------------------------------------------------------------------------ references

  /** At `i` of the text stand the lead, `@` and the path up to the next white space, and nothing more belongs to it. */
  ghost predicate IsRefAt(text: string, i: int, r: Ref) {
    && 0 <= i <= |text| && r.index == i
    && (if r.lead == "" then i == 0 else |r.lead| == 1 && IsSpace(r.lead[0]))
    && r.path != "" && (forall c :: c in r.path ==> !IsSpace(c))
    && Full(r) <= text[i..]
    && (i + |Full(r)| == |text| || IsSpace(text[i + |Full(r)|]))
  }

  lemma {:induction false} WordIs(s: string, w: string)
    ensures Word(s) == w <==>
      w <= s && (forall c :: c in w ==> !IsSpace(c)) && (|w| == |s| || IsSpace(s[|w|]))
    decreases |s|
  {
    hide IsSpace;
    if s == "" {
      assert w <= s <==> w == "";
    } else if IsSpace(s[0]) {
      assert w != "" && w <= s ==> w[0] == s[0] && w[0] in w;
    } else {
      if w != "" && w <= s {
        assert w[0] == s[0] && w == [s[0]] + w[1..] && w[1..] <= s[1..];
        WordIs(s[1..], w[1..]);
        assert forall c :: c in w <==> c == w[0] || c in w[1..];
      }
    }
  }

  /** A reference is read at `i` exactly when one stands there. */
  lemma RefAtIff(text: string, i: nat, r: Ref)
    requires i <= |text|
    ensures RefAt(text, i) == Some(r) <==> IsRefAt(text, i, r)
  {
    hide IsSpace, Word;
    if RefAt(text, i).Some? { RefAtStands(text, i); }
    if IsRefAt(text, i, r) { StandsRefAt(text, i, r); }
  }

  lemma RefAtStands(text: string, i: nat)
    requires i <= |text| && RefAt(text, i).Some?
    ensures IsRefAt(text, i, RefAt(text, i).value)
  {
    hide IsSpace, Word;
    var r := RefAt(text, i).value;
    var k := i + |r.lead| + 1;
    WordIs(text[k..], r.path);
    assert text[i..][..|Full(r)|] == Full(r);
    assert |r.path| < |text[k..]| ==> text[k..][|r.path|] == text[i + |Full(r)|];
  }

  lemma StandsRefAt(text: string, i: nat, r: Ref)
    requires IsRefAt(text, i, r)
    ensures RefAt(text, i) == Some(r)
  {
    hide IsSpace, Word;
    RefCharacters(text, i, r);
    var k := i + |r.lead| + 1;
    assert r.path[0] in r.path;
    WordIs(text[k..], r.path);
    assert |r.path| < |text[k..]| ==> text[k..][|r.path|] == text[i + |Full(r)|];
    if r.lead == "" {
      assert r == Ref(0, "", r.path);
    } else {
      SpaceIsNoAt(text[i]);
      assert r == Ref(i, [text[i]], r.path);
    }
  }

  lemma RefCharacters(text: string, i: nat, r: Ref)
    requires i <= |text| && Full(r) <= text[i..] && r.path != ""
    ensures var k := i + |r.lead| + 1;
      k + |r.path| <= |text| && text[k - 1] == '@' && r.path <= text[k..] && text[k] == r.path[0]
    ensures |r.lead| == 1 ==> r.lead == [text[i]]
  {
    var full, k := Full(r), i + |r.lead| + 1;
    assert forall x :: 0 <= x < |full| ==> text[i + x] == text[i..][x] == full[x];
    assert full[|r.lead|] == '@';
    forall x | 0 <= x < |r.path| ensures text[k..][x] == r.path[x] {
      assert full[|r.lead| + 1 + x] == r.path[x] && text[k..][x] == text[i + (|r.lead| + 1 + x)];
    }
    assert r.lead != "" ==> full[0] == r.lead[0];
  }

  lemma SpaceIsNoAt(c: char)
    ensures IsSpace(c) ==> c != '@'
  {}

  /** The next reference is the leftmost one, and there is none only when none is left. */
  lemma {:induction false} NextRefIs(text: string, i: nat)
    requires i <= |text|
    ensures NextRef(text, i).Some? ==>
      var r := NextRef(text, i).value;
      IsRefAt(text, r.index, r) && forall j, q :: i <= j < r.index ==> !IsRefAt(text, j, q)
    ensures NextRef(text, i) == None ==> forall j, q :: i <= j ==> !IsRefAt(text, j, q)
    decreases |text| - i
  {
    hide RefAt, IsRefAt;
    forall q ensures RefAt(text, i) == Some(q) <==> IsRefAt(text, i, q) { RefAtIff(text, i, q); }
    if RefAt(text, i) == None && i < |text| {
      NextRefIs(text, i + 1);
    }
    forall j, q | |text| < j ensures !IsRefAt(text, j, q) { OutOfText(text, j, q); }
  }

  lemma OutOfText(text: string, j: int, q: Ref)
    requires |text| < j
    ensures !IsRefAt(text, j, q)
  {}

  /** The path of a sentence is the path without the punctuation behind it. */
  lemma {:induction false} StripIs(path: string, p: string)
    ensures StripPunctuation(path) == p <==>
      && p <= path && (p == "" || p[|p| - 1] !in ".,;:!?")
      && forall k :: |p| <= k < |path| ==> path[k] in ".,;:!?"
    decreases |path|
  {
    if path != "" && path[|path| - 1] in ".,;:!?" {
      var front := path[..|path| - 1];
      StripIs(front, p);
      assert p <= path && p != path <==> p <= front;
      assert forall k :: 0 <= k < |front| ==> front[k] == path[k];
    } else if p <= path && p != path {
      assert path[|path| - 1] !in ".,;:!?";
    }
  }

  // ----------------------------------------------------------------------------------------- fences

  /** Behind white space the line starts with three of one of the fence characters. */
  ghost predicate Marks(line: string, c: char) {
    (c == '`' || c == '~') && exists blank, rest :: line == blank + [c, c, c] + rest && Blank(blank)
  }

  lemma MarksIff(line: string, c: char)
    ensures FenceMarker(line) == Some(c) <==> Marks(line, c)
  {
    hide FenceMarker, Blank;
    if FenceMarker(line) == Some(c) { MarkerMarks(line, c); }
    if Marks(line, c) {
      var blank, rest :| line == blank + [c, c, c] + rest && Blank(blank);
      MarkedMarker(line, c, blank, rest);
    }
  }

  lemma MarkedMarker(line: string, c: char, blank: string, rest: string)
    requires (c == '`' || c == '~') && line == blank + [c, c, c] + rest && Blank(blank)
    ensures FenceMarker(line) == Some(c)
  {
    var t := [c, c, c] + rest;
    assert line == blank + t by { hide *; }
    BlankThenFence(blank, t, c);
    OneMarker(t, c);
    hide TrimStart, Blank, IsSpace;
  }

  lemma BlankThenFence(blank: string, t: string, c: char)
    requires (c == '`' || c == '~') && Blank(blank) && t != "" && t[0] == c
    ensures TrimStart(blank + t) == t
  {
    FenceIsNoSpace(c);
    hide TrimStart, Blank, IsSpace;
    TrimStartGap(blank, t);
    TrimStartSame(t);
  }

  lemma MarkerMarks(line: string, c: char)
    requires FenceMarker(line) == Some(c)
    ensures Marks(line, c)
  {
    hide TrimStart, Blank;
    StartTakesSpace(line);
    var t := TrimStart(line);
    var blank := line[..|line| - |t|];
    assert t == [c, c, c] + t[3..];
    assert line == blank + t;
    assert line == blank + [c, c, c] + t[3..];
  }

  lemma OneMarker(t: string, c: char)
    requires (c == '`' || c == '~') && [c, c, c] <= t
    ensures c == '`' ==> "```" <= t
    ensures c == '~' ==> "~~~" <= t && !("```" <= t)
  {
    assert t[0] == [c, c, c][0];
  }

  lemma FenceIsNoSpace(c: char)
    ensures c == '`' || c == '~' ==> !IsSpace(c)
  {}

  /** Line `i` stands behind a fence that some earlier line opened with `c` and none has closed. */
  ghost predicate Fenced(lines: seq<string>, i: int, c: char) {
    exists j :: Opens(lines, i, j, c) && !AnyFence(lines, j)
  }

  ghost predicate AnyFence(lines: seq<string>, i: int)
    decreases if i < 0 then 0 else i
  {
    exists j, c :: 0 <= j < i && Opens(lines, i, j, c) && !AnyFence(lines, j)
  }

  ghost predicate Opens(lines: seq<string>, i: int, j: int, c: char) {
    0 <= j < i <= |lines| && Marks(lines[j], c) && forall k :: j < k < i ==> !Marks(lines[k], c)
  }

  /** The fence kept by the loop is the one that is open. */
  ghost predicate FenceAt(lines: seq<string>, i: nat, fence: Option<char>) {
    forall c :: Fenced(lines, i, c) <==> fence == Some(c)
  }

  lemma NoFenceYet(lines: seq<string>)
    ensures FenceAt(lines, 0, None)
  {}

  lemma AnyFenceIff(lines: seq<string>, i: int)
    ensures AnyFence(lines, i) <==> exists c :: Fenced(lines, i, c)
  {
    hide Opens;
    assert AnyFence(lines, i) <==> exists j, c :: 0 <= j < i && Opens(lines, i, j, c) && !AnyFence(lines, j);
    forall j, c | Opens(lines, i, j, c) ensures 0 <= j < i { OpensEarlier(lines, i, j, c); }
    hide AnyFence;
    if j, c :| 0 <= j < i && Opens(lines, i, j, c) && !AnyFence(lines, j) { assert Fenced(lines, i, c); }
  }

  lemma OpensEarlier(lines: seq<string>, i: int, j: int, c: char)
    requires Opens(lines, i, j, c)
    ensures 0 <= j < i
  {}

  lemma FencedLater(lines: seq<string>, i: nat, c: char)
    requires i < |lines|
    ensures Fenced(lines, i + 1, c) <==>
      if AnyFence(lines, i) then Fenced(lines, i, c) && !Marks(lines[i], c) else Marks(lines[i], c)
  {
    hide Marks, AnyFence;
    AnyFenceIff(lines, i);
    if Fenced(lines, i + 1, c) {
      var j :| Opens(lines, i + 1, j, c) && !AnyFence(lines, j);
      if j < i { assert Opens(lines, i, j, c) && Fenced(lines, i, c) && !Marks(lines[i], c); }
    }
    if AnyFence(lines, i) && Fenced(lines, i, c) && !Marks(lines[i], c) {
      var j :| Opens(lines, i, j, c) && !AnyFence(lines, j);
      assert Opens(lines, i + 1, j, c) && Fenced(lines, i + 1, c);
    }
    if !AnyFence(lines, i) && Marks(lines[i], c) {
      assert Opens(lines, i + 1, i, c) && Fenced(lines, i + 1, c);
    }
  }

  /** A line that is a fence or stands behind an open one. */
  ghost predicate Verbatim(lines: seq<string>, i: nat)
    requires i < |lines|
  {
    exists c :: Fenced(lines, i, c) || Marks(lines[i], c)
  }

  lemma FenceStep(lines: seq<string>, i: nat, fence: Option<char>)
    requires i < |lines| && FenceAt(lines, i, fence)
    ensures var marker := FenceMarker(lines[i]);
      FenceAt(lines, i + 1,
        if marker.Some? && (fence == None || fence == marker) then if fence == None then marker else None else fence)
    ensures Verbatim(lines, i) <==> fence.Some? || FenceMarker(lines[i]).Some?
  {
    hide FenceMarker, Marks, Fenced, AnyFence;
    AnyFenceIff(lines, i);
    forall c ensures FenceMarker(lines[i]) == Some(c) <==> Marks(lines[i], c) { MarksIff(lines[i], c); }
    assert fence.Some? ==> Fenced(lines, i, fence.value);
    assert FenceMarker(lines[i]).Some? ==> Marks(lines[i], FenceMarker(lines[i]).value);
    forall c ensures Fenced(lines, i + 1, c) <==>
      if AnyFence(lines, i) then Fenced(lines, i, c) && !Marks(lines[i], c) else Marks(lines[i], c)
    {
      FencedLater(lines, i, c);
    }
  }

  // ------------------------------------------------------------------------------------- code spans

  predicate Ticks(s: string) {
    forall k :: 0 <= k < |s| ==> s[k] == '`'
  }

  /** Backticks, text without any, backticks. */
  ghost predicate IsSpan(s: string) {
    exists open, inner, close :: s == open + inner + close && SpanOf(open, inner, close)
  }

  predicate SpanOf(open: string, inner: string, close: string) {
    open != "" && close != "" && Ticks(open) && Ticks(close) && '`' !in inner
  }

  /**
   * Text and code spans in turn. A span takes all backticks at its end, and one of backticks alone only
   * when no more follow; behind the last span at most one backtick is left.
   */
  ghost predicate CutAtSpans(parts: seq<string>)
    decreases |parts|
  {
    if |parts| == 1 then multiset(parts[0])['`'] <= 1
    else
      && |parts| >= 3 && '`' !in parts[0] && IsSpan(parts[1]) && CutAtSpans(parts[2..])
      && (Concat(parts[2..]) != "" ==> Concat(parts[2..])[0] != '`')
      && (Ticks(parts[1]) ==> '`' !in Concat(parts[2..]))
  }

  lemma {:induction false} BackticksAre(run: string, rest: string)
    requires Ticks(run) && (rest != "" ==> rest[0] != '`')
    ensures Backticks(run + rest) == |run|
    decreases |run|
  {
    if run == "" {
      assert run + rest == rest;
    } else {
      assert (run + rest)[1..] == run[1..] + rest;
      BackticksAre(run[1..], rest);
    }
  }

  lemma {:induction false} TextUntil(inner: string, rest: string)
    requires '`' !in inner && (rest != "" ==> rest[0] == '`')
    ensures UntilBacktick(inner + rest) == |inner|
    decreases |inner|
  {
    if inner == "" {
      assert inner + rest == rest;
    } else {
      assert inner[0] in inner && (inner + rest)[1..] == inner[1..] + rest;
      TextUntil(inner[1..], rest);
    }
  }

  lemma {:induction false} BackticksTaken(s: string)
    ensures Ticks(s[..Backticks(s)]) && (Backticks(s) < |s| ==> s[Backticks(s)] != '`')
    decreases |s|
  {
    if s != "" && s[0] == '`' {
      BackticksTaken(s[1..]);
      assert s[..Backticks(s)] == [s[0]] + s[1..][..Backticks(s[1..])];
    }
  }

  lemma {:induction false} TextTaken(s: string)
    ensures '`' !in s[..UntilBacktick(s)]
    decreases |s|
  {
    if s != "" && s[0] != '`' {
      TextTaken(s[1..]);
      assert s[..UntilBacktick(s)] == [s[0]] + s[1..][..UntilBacktick(s[1..])];
    }
  }

  /** A code span at the front of a text is found with its whole length. */
  lemma SpanFound(span: string, rest: string)
    requires IsSpan(span) && (rest != "" ==> rest[0] != '`') && (Ticks(span) ==> '`' !in rest)
    ensures span != "" && span[0] == '`' && CodeSpan(span + rest) == |span|
  {
    hide CodeSpan;
    var open, inner, close :| span == open + inner + close && SpanOf(open, inner, close);
    if inner == "" {
      RunFound(span, rest);
    } else {
      assert inner[0] in inner && span[|open|] == inner[0];
      QuoteFound(open, inner, close, rest);
    }
  }

  lemma RunFound(span: string, rest: string)
    requires |span| > 1 && Ticks(span) && '`' !in rest
    ensures CodeSpan(span + rest) == |span|
  {
    var s := span + rest;
    assert rest != "" ==> rest[0] in rest;
    BackticksAre(span, rest);
    assert s[|span|..] == rest;
    TextUntil(rest, "");
    assert rest + "" == rest;
  }

  lemma QuoteFound(open: string, inner: string, close: string, rest: string)
    requires SpanOf(open, inner, close) && inner != "" && (rest != "" ==> rest[0] != '`')
    ensures CodeSpan(open + inner + close + rest) == |open + inner + close|
  {
    hide UntilBacktick, Backticks;
    var s := open + inner + close + rest;
    var behind := close + rest;
    assert s == open + (inner + behind) && s[|open|..] == inner + behind;
    assert inner[0] in inner;
    BackticksAre(open, inner + behind);
    TextUntil(inner, behind);
    assert s[|open| + |inner|..] == behind;
    BackticksAre(close, rest);
  }

  /** What is taken for a code span is one. */
  lemma SpanTaken(s: string)
    requires s != "" && s[0] == '`' && CodeSpan(s) != 0
    ensures var n := CodeSpan(s);
      IsSpan(s[..n]) && (n < |s| ==> s[n] != '`') && (Ticks(s[..n]) ==> '`' !in s[n..])
  {
    if Backticks(s) + UntilBacktick(s[Backticks(s)..]) < |s| {
      QuoteTaken(s);
    } else {
      RunTaken(s);
    }
  }

  lemma QuoteTaken(s: string)
    requires s != "" && s[0] == '`' && Backticks(s) + UntilBacktick(s[Backticks(s)..]) < |s|
    ensures var n := CodeSpan(s); IsSpan(s[..n]) && (n < |s| ==> s[n] != '`') && !Ticks(s[..n])
  {
    hide *;
    var open := Backticks(s);
    var inner := UntilBacktick(s[open..]);
    BackticksTaken(s);
    TextTaken(s[open..]);
    SomeTicks(s);
    QuoteLength(s, open, inner);
    CloseTaken(s, open + inner);
    QuoteIsSpan(s, open, inner, Backticks(s[open + inner..]));
  }

  lemma CloseTaken(s: string, at: nat)
    requires at < |s| && s[at] == '`'
    ensures var close := Backticks(s[at..]);
      0 < close <= |s| - at && Ticks(s[at..][..close]) && (close < |s| - at ==> s[at..][close] != '`')
  {
    hide Backticks, Ticks;
    BackticksTaken(s[at..]);
    SomeTicks(s[at..]);
  }

  lemma QuoteLength(s: string, open: nat, inner: nat)
    requires s != "" && s[0] == '`' && open == Backticks(s) && inner == UntilBacktick(s[open..]) && open + inner < |s|
    ensures CodeSpan(s) == open + inner + Backticks(s[open + inner..])
  {
    hide Backticks, UntilBacktick;
  }

  lemma QuoteIsSpan(s: string, open: nat, inner: nat, close: nat)
    requires 0 < open && 0 < close && open + inner + close <= |s|
    requires Ticks(s[..open]) && s[open] != '`' && '`' !in s[open..][..inner] && Ticks(s[open + inner..][..close])
    requires open + inner + close < |s| ==> s[open + inner..][close] != '`'
    ensures var n := open + inner + close; IsSpan(s[..n]) && (n < |s| ==> s[n] != '`') && !Ticks(s[..n])
  {
    var n := open + inner + close;
    var a, b, c := s[..open], s[open..][..inner], s[open + inner..][..close];
    assert s[..n] == a + b + c;
    assert SpanOf(a, b, c);
    assert s[..n][open] == s[open];
  }

  lemma SomeTicks(s: string)
    requires s != "" && s[0] == '`'
    ensures Backticks(s) > 0
  {}

  lemma RunTaken(s: string)
    requires s != "" && s[0] == '`' && CodeSpan(s) != 0
    requires Backticks(s) + UntilBacktick(s[Backticks(s)..]) == |s|
    ensures var n := CodeSpan(s); IsSpan(s[..n]) && (n < |s| ==> s[n] != '`') && '`' !in s[n..]
  {
    var n := Backticks(s);
    assert n == CodeSpan(s) > 1;
    BackticksTaken(s);
    TextTaken(s[n..]);
    assert s[n..][..UntilBacktick(s[n..])] == s[n..];
    hide CodeSpan, Backticks, UntilBacktick, IsSpan;
    RunIsSpan(s[..n]);
  }

  lemma RunIsSpan(s: string)
    requires |s| > 1 && Ticks(s)
    ensures IsSpan(s)
  {
    var n := |s| - 1;
    assert s == s[..n] + "" + s[n..];
    assert SpanOf(s[..n], "", s[n..]);
  }

  /** Without a span at its first backtick a text has no other. */
  lemma NoSpan(s: string)
    requires s != "" && s[0] == '`' && CodeSpan(s) == 0
    ensures '`' !in s[1..]
  {
    BackticksTaken(s);
    TextTaken(s[Backticks(s)..]);
    assert Backticks(s) == 1;
    assert s[1..][..UntilBacktick(s[1..])] == s[1..];
  }

  lemma TickCount(a: string, s: string)
    requires '`' !in a
    ensures multiset(a + s)['`'] == multiset(s)['`']
    ensures multiset(a)['`'] == 0
  {
    assert '`' !in multiset(a);
    assert multiset(a + s) == multiset(a) + multiset(s);
  }

  /** Cutting a line leaves text and code spans in turn, and only one cut of the line does. */
  lemma SegmentsIff(line: string, parts: seq<string>)
    ensures Segments(line) == parts <==> Concat(parts) == line && CutAtSpans(parts)
  {
    SegmentsAreCut(line);
    if CutAtSpans(parts) { CutIsSegments(parts); }
  }

  lemma {:induction false} SegmentsAreCut(line: string)
    ensures CutAtSpans(Segments(line))
    decreases |line|
  {
    hide IsSpan, Concat, CodeSpan, UntilBacktick, Ticks, CutAtSpans;
    var i := UntilBacktick(line);
    if i == |line| || CodeSpan(line[i..]) == 0 {
      NoneLeft(line);
    } else {
      var n := CodeSpan(line[i..]);
      TextTaken(line);
      SpanTaken(line[i..]);
      assert line[i..][n..] == line[i + n..] && line[i..][..n] == line[i..i + n];
      SegmentsAreCut(line[i + n..]);
      FirstSpan(line[..i], line[i..i + n], Segments(line[i + n..]));
    }
  }

  lemma FirstSpan(text: string, span: string, rest: seq<string>)
    requires rest != [] && CutAtSpans(rest) && '`' !in text && IsSpan(span)
    requires Concat(rest) != "" ==> Concat(rest)[0] != '`'
    requires Ticks(span) ==> '`' !in Concat(rest)
    ensures CutAtSpans([text, span] + rest)
  {
    hide IsSpan, Concat, Ticks;
    var parts := [text, span] + rest;
    assert parts[2..] == rest;
  }

  lemma NoneLeft(line: string)
    requires UntilBacktick(line) == |line| || CodeSpan(line[UntilBacktick(line)..]) == 0
    ensures CutAtSpans([line])
  {
    hide CodeSpan, UntilBacktick, CutAtSpans;
    var i := UntilBacktick(line);
    TextTaken(line);
    var text, tail := line[..i], line[i..];
    assert line == text + tail;
    if i < |line| {
      NoSpan(tail);
      OneTick(tail);
    } else {
      assert tail == "";
    }
    hide *;
    OnlyPart(text, tail);
  }

  lemma OnlyPart(text: string, tail: string)
    requires '`' !in text && (tail == "" || multiset(tail)['`'] <= 1)
    ensures CutAtSpans([text + tail])
  {
    TickCount(text, tail);
  }

  lemma OneTick(s: string)
    requires s != "" && '`' !in s[1..]
    ensures multiset(s)['`'] <= 1
  {
    assert s == [s[0]] + s[1..];
    assert multiset(s) == multiset([s[0]]) + multiset(s[1..]);
    assert '`' !in multiset(s[1..]);
  }

  lemma {:induction false} CutIsSegments(parts: seq<string>)
    requires CutAtSpans(parts)
    ensures Segments(Concat(parts)) == parts
    decreases |parts|
  {
    hide IsSpan, Concat, CodeSpan, UntilBacktick, Ticks;
    if |parts| == 1 {
      ConcatOne(parts[0]);
      assert parts == [parts[0]];
      LoneTick(parts[0]);
    } else {
      var text, span, rest := parts[0], parts[1], Concat(parts[2..]);
      assert parts == [text, span] + parts[2..];
      ConcatTwo(text, span, parts[2..]);
      CutIsSegments(parts[2..]);
      SpanFound(span, rest);
      TextUntil(text, span + rest);
      var line := text + (span + rest);
      assert line[..|text|] == text && line[|text|..] == span + rest;
      assert line[|text|..|text| + |span|] == span && line[|text| + |span|..] == rest;
    }
  }

  /** At most one backtick makes no span. */
  lemma LoneTick(line: string)
    requires multiset(line)['`'] <= 1
    ensures UntilBacktick(line) == |line| || CodeSpan(line[UntilBacktick(line)..]) == 0
  {
    var i := UntilBacktick(line);
    if i < |line| {
      hide UntilBacktick, CodeSpan;
      var front, tail := line[..i], line[i..];
      assert line == front + tail;
      assert multiset(line) == multiset(front) + multiset(tail);
      NoOtherTick(tail);
      NoSpanBehind(tail);
    }
  }

  lemma NoOtherTick(tail: string)
    requires tail != "" && tail[0] == '`' && multiset(tail)['`'] <= 1
    ensures '`' !in tail[1..]
  {
    var rest := tail[1..];
    assert tail == [tail[0]] + rest;
    assert multiset(tail) == multiset([tail[0]]) + multiset(rest);
    assert '`' in rest ==> '`' in multiset(rest);
  }

  lemma NoSpanBehind(tail: string)
    requires tail != "" && tail[0] == '`' && '`' !in tail[1..]
    ensures CodeSpan(tail) == 0
  {
    var rest := tail[1..];
    assert rest != "" ==> rest[0] in rest;
    assert tail == [tail[0]] + rest;
    BackticksAre([tail[0]], rest);
    TextUntil(rest, "");
    assert rest + "" == rest;
    hide Backticks, UntilBacktick;
  }

  // ------------------------------------------------------------------- what becomes of each of them

  /** Lines in code stay, and the code spans of every other line; `st` and `st'` are the state around the line. */
  ghost predicate LineIs(
      f: Files, lines: seq<string>, i: nat, base: string, depth: nat, st: State, out: string, st': State)
    requires i < |lines|
  {
    if Verbatim(lines, i) then out == lines[i] && st' == st
    else exists parts, outs, states ::
      CutAtSpans(parts) && lines[i] == Concat(parts) && out == Concat(outs)
      && PartsAre(f, parts, base, depth, outs, states) && states[0] == st && states[|parts|] == st'
  }

  ghost predicate PartsAre(
      f: Files, parts: seq<string>, base: string, depth: nat, outs: seq<string>, states: seq<State>)
  {
    && |outs| == |parts| && |states| == |parts| + 1
    && forall k :: 0 <= k < |parts| ==> PartIs(f, parts[k], base, depth, states[k], outs[k], states[k + 1])
  }

  ghost predicate PartIs(f: Files, part: string, base: string, depth: nat, st: State, out: string, st': State) {
    if part != "" && part[0] == '`' then out == part && st' == st else TextIs(f, part, base, depth, st, out, st')
  }

  /** The references of a text are those that `es` lists, and `out` is the text with their pieces put in. */
  ghost predicate TextIs(f: Files, text: string, base: string, depth: nat, st: State, out: string, st': State) {
    exists es: seq<Emission> :: Emits(f, text, 0, 0, base, depth, es, st, out, st')
  }

  /** One reference, the path that is looked up for it, and what is emitted in its place. */
  datatype Emission = Emission(r: Ref, path: string, piece: string, after: State)

  /** `path` without any punctuation at its end is `p`. */
  predicate Bare(path: string, p: string) {
    && p <= path && (p == "" || p[|p| - 1] !in ".,;:!?")
    && forall k :: |p| <= k < |path| ==> path[k] in ".,;:!?"
  }

  ghost predicate FirstRef(text: string, from: int, r: Ref) {
    from <= r.index && IsRefAt(text, r.index, r) && forall j, q :: from <= j < r.index ==> !IsRefAt(text, j, q)
  }

  ghost predicate Emits(
      f: Files, text: string, from: nat, last: nat, base: string, depth: nat,
      es: seq<Emission>, st: State, out: string, st': State)
    requires last <= from <= |text|
    decreases |es|
  {
    if es == [] then
      (forall j, q :: from <= j ==> !IsRefAt(text, j, q)) && out == text[last..] && st' == st
    else
      var e := es[0];
      var r := e.r;
      var end := r.index + |Full(r)|;
      && FirstRef(text, from, r) && Bare(r.path, e.path) && end <= |text|
      && PieceIs(f, r, e.path, base, depth, st, e.piece, e.after)
      && exists rest ::
        && out == text[last..r.index] + e.piece + rest
        && Emits(f, text, end, r.index + |r.lead| + 1 + |e.path|, base, depth, es[1..], e.after, rest, st')
  }

  /** The path leads to a file that was not looked at yet, and this is its text. */
  predicate Leads(f: Files, p: string, base: string, depth: nat, st: State, file: string, contents: string) {
    && p != "" && p[0] != '@' && depth > 0
    && f.locate(p, base) == Some(file) && file !in st.visited && f.read(file) == Some(contents)
  }

  /** In place of a reference stands the expanded file it leads to when that fits the budget, else the reference. */
  ghost predicate PieceIs(
      f: Files, r: Ref, p: string, base: string, depth: nat, st: State, piece: string, after: State) {
    && ((forall file, contents :: !Leads(f, p, base, depth, st, file, contents)) ==> piece == Full(r) && after == st)
    && forall file, contents :: Leads(f, p, base, depth, st, file, contents) ==>
      var size := f.bytes(contents);
      if size > st.budget then piece == Full(r) && after == st.(visited := st.visited + {file})
      else
        var inside := State(st.visited + {file}, st.budget - size, st.log + [Inlined(file, size, depth)]);
        (piece, after) == InPlace(r.lead, Expand(f, contents, f.dir(file), depth - 1, inside))
  }

  function InPlace(lead: string, expanded: (string, State)): (string, State) {
    (lead + expanded.0, expanded.1)
  }

  lemma RefIs(f: Files, r: Ref, base: string, depth: nat, st: State)
    ensures var (piece, after) := ExpandRef(f, r, base, depth, st);
      PieceIs(f, r, StripPunctuation(r.path), base, depth, st, piece, after)
  {
    hide Expand, StripPunctuation, PieceIs;
    var p := StripPunctuation(r.path);
    var (piece, after) := ExpandRef(f, r, base, depth, st);
    if depth > 0 && p != "" && p[0] != '@' && f.locate(p, base).Some? && f.locate(p, base).value !in st.visited
       && f.read(f.locate(p, base).value).Some? {
      var file := f.locate(p, base).value;
      var contents := f.read(file).value;
      LedTo(f, r, base, depth, st, file, contents);
    } else {
      LedNowhere(f, r, base, depth, st);
    }
  }

  lemma LedTo(f: Files, r: Ref, base: string, depth: nat, st: State, file: string, contents: string)
    requires Leads(f, StripPunctuation(r.path), base, depth, st, file, contents)
    ensures var (piece, after) := ExpandRef(f, r, base, depth, st);
      PieceIs(f, r, StripPunctuation(r.path), base, depth, st, piece, after)
  {
    hide Expand, StripPunctuation;
    var p := StripPunctuation(r.path);
    var size := f.bytes(contents);
    if size <= st.budget {
      var inside := State(st.visited + {file}, st.budget - size, st.log + [Inlined(file, size, depth)]);
      assert Inline(f, p, base, depth, st) ==
        (Some(Expand(f, contents, f.dir(file), depth - 1, inside).0),
         Expand(f, contents, f.dir(file), depth - 1, inside).1);
    }
  }

  lemma LedNowhere(f: Files, r: Ref, base: string, depth: nat, st: State)
    requires forall file, contents :: !Leads(f, StripPunctuation(r.path), base, depth, st, file, contents)
    ensures var (piece, after) := ExpandRef(f, r, base, depth, st);
      PieceIs(f, r, StripPunctuation(r.path), base, depth, st, piece, after)
  {
    hide Expand, StripPunctuation;
    var p := StripPunctuation(r.path);
    if depth > 0 && p != "" && p[0] != '@' && f.locate(p, base).Some? && f.read(f.locate(p, base).value).Some? {
      assert !Leads(f, p, base, depth, st, f.locate(p, base).value, f.read(f.locate(p, base).value).value);
    }
  }

  lemma BarePath(path: string)
    ensures Bare(path, StripPunctuation(path))
  {
    StripIs(path, StripPunctuation(path));
  }

  lemma RefFirst(text: string, from: nat)
    requires from <= |text| && NextRef(text, from).Some?
    ensures var r := NextRef(text, from).value;
      FirstRef(text, from, r) && r.index + |Full(r)| <= |text|
  {
    hide RefAt, NextRef, IsRefAt;
    NextRefIs(text, from);
    RefText(text, NextRef(text, from).value);
  }

  /** What is emitted for a text: between its references the text, in their place their pieces. */
  lemma {:induction false} SegmentIs(
      f: Files, text: string, from: nat, last: nat, base: string, depth: nat, st: State) returns (es: seq<Emission>)
    requires last <= from <= |text|
    ensures var (out, st') := ExpandSegment(f, text, from, last, base, depth, st);
      Emits(f, text, from, last, base, depth, es, st, out, st')
    decreases |text| - from
  {
    hide RefAt, NextRef, StripPunctuation, ExpandSegment, ExpandRef, IsRefAt, PieceIs, Bare, FirstRef;
    SegmentStep(f, text, from, last, base, depth, st);
    match NextRef(text, from) {
      case None =>
        NextRefIs(text, from);
        es := [];
      case Some(r) =>
        var one, end, p := ExpandRef(f, r, base, depth, st), r.index + |Full(r)|, StripPunctuation(r.path);
        RefFirst(text, from);
        BarePath(r.path);
        RefIs(f, r, base, depth, st);
        var later := SegmentIs(f, text, end, RefEnd(r), base, depth, one.1);
        es := [Emission(r, p, one.0, one.1)] + later;
        assert es[1..] == later;
    }
  }

  lemma {:induction false} PartsAreThat(f: Files, parts: seq<string>, base: string, depth: nat, st: State)
    returns (outs: seq<string>, states: seq<State>)
    ensures var (out, st') := ExpandParts(f, parts, base, depth, st);
      && PartsAre(f, parts, base, depth, outs, states)
      && states[0] == st && states[|parts|] == st' && out == Concat(outs)
    decreases |parts|
  {
    hide ExpandSegment, TextIs;
    if parts == [] {
      outs, states := [], [st];
    } else {
      var first := (parts[0], st);
      if parts[0] == "" || parts[0][0] != '`' {
        first := ExpandSegment(f, parts[0], 0, 0, base, depth, st);
        TextIsThat(f, parts[0], base, depth, st);
      }
      var os, ss := PartsAreThat(f, parts[1..], base, depth, first.1);
      outs, states := [first.0] + os, [st] + ss;
      assert outs[1..] == os;
      PartsCons(f, parts, base, depth, outs, states);
    }
  }

  lemma TextIsThat(f: Files, text: string, base: string, depth: nat, st: State)
    ensures var (out, st') := ExpandSegment(f, text, 0, 0, base, depth, st); TextIs(f, text, base, depth, st, out, st')
  {
    hide ExpandSegment, Emits;
    var es := SegmentIs(f, text, 0, 0, base, depth, st);
  }

  lemma PartsCons(f: Files, parts: seq<string>, base: string, depth: nat, outs: seq<string>, states: seq<State>)
    requires parts != [] && |outs| == |parts| && |states| == |parts| + 1
    requires PartsAre(f, parts[1..], base, depth, outs[1..], states[1..])
    requires PartIs(f, parts[0], base, depth, states[0], outs[0], states[1])
    ensures PartsAre(f, parts, base, depth, outs, states)
  {
    hide PartIs;
    forall k | 0 <= k < |parts| ensures PartIs(f, parts[k], base, depth, states[k], outs[k], states[k + 1]) {
      if k > 0 {
        assert parts[1..][k - 1] == parts[k] && outs[1..][k - 1] == outs[k];
        assert states[1..][k - 1] == states[k] && states[1..][k] == states[k + 1];
      }
    }
  }

  lemma LineIsThat(f: Files, lines: seq<string>, i: nat, base: string, depth: nat, st: State)
    requires i < |lines| && !Verbatim(lines, i)
    ensures var (out, st') := ExpandParts(f, Segments(lines[i]), base, depth, st);
      LineIs(f, lines, i, base, depth, st, out, st')
  {
    hide ExpandParts, Segments, PartsAre, Verbatim, CutAtSpans;
    var parts := Segments(lines[i]);
    var outs, states := PartsAreThat(f, parts, base, depth, st);
    SegmentsIff(lines[i], parts);
    PartsSizes(f, parts, base, depth, outs, states);
  }

  lemma PartsSizes(f: Files, parts: seq<string>, base: string, depth: nat, outs: seq<string>, states: seq<State>)
    requires PartsAre(f, parts, base, depth, outs, states)
    ensures |states| == |parts| + 1
  {}

  ghost predicate LinesAre(
      f: Files, lines: seq<string>, i: nat, base: string, depth: nat, outs: seq<string>, states: seq<State>) {
    && i <= |lines| && |outs| == |lines| - i && |states| == |outs| + 1
    && forall k :: 0 <= k < |outs| ==> LineIs(f, lines, i + k, base, depth, states[k], outs[k], states[k + 1])
  }

  lemma {:induction false} LinesAreThat(
      f: Files, lines: seq<string>, i: nat, fence: Option<char>, base: string, depth: nat, st: State)
    returns (states: seq<State>)
    requires i <= |lines| && FenceAt(lines, i, fence)
    ensures var (outs, st') := ExpandLines(f, lines[i..], fence, base, depth, st);
      && LinesAre(f, lines, i, base, depth, outs, states)
      && states[0] == st && states[|outs|] == st'
    decreases |lines| - i
  {
    hide FenceMarker, FenceAt, Segments, ExpandParts, ExpandLines, LineIs, Verbatim;
    if i == |lines| {
      LinesEnd(f, lines, fence, base, depth, st);
      states := [st];
    } else {
      var marker := FenceMarker(lines[i]);
      LinesStep(f, lines, i, fence, base, depth, st);
      FenceStep(lines, i, fence);
      var one := ExpandParts(f, Segments(lines[i]), base, depth, st);
      var later;
      if marker.Some? || fence.Some? {
        VerbatimLine(f, lines, i, base, depth, st);
        one := (lines[i], st);
        later := LinesAreThat(
          f, lines, i + 1,
          if marker.Some? && (fence == None || fence == marker) then if fence == None then marker else None else fence,
          base, depth, st);
      } else {
        LineIsThat(f, lines, i, base, depth, st);
        later := LinesAreThat(f, lines, i + 1, fence, base, depth, one.1);
      }
      states := [st] + later;
      var outs := ExpandLines(f, lines[i..], fence, base, depth, st).0;
      LinesCons(f, lines, i, base, depth, outs, states);
    }
  }

  lemma VerbatimLine(f: Files, lines: seq<string>, i: nat, base: string, depth: nat, st: State)
    requires i < |lines| && Verbatim(lines, i)
    ensures LineIs(f, lines, i, base, depth, st, lines[i], st)
  {
    hide Fenced, Marks;
  }

  lemma LinesCons(
      f: Files, lines: seq<string>, i: nat, base: string, depth: nat, outs: seq<string>, states: seq<State>)
    requires i < |lines| && outs != [] && |states| > 1
    requires LinesAre(f, lines, i + 1, base, depth, outs[1..], states[1..])
    requires LineIs(f, lines, i, base, depth, states[0], outs[0], states[1])
    ensures LinesAre(f, lines, i, base, depth, outs, states)
  {
    hide LineIs;
    forall k | 0 <= k < |outs| ensures LineIs(f, lines, i + k, base, depth, states[k], outs[k], states[k + 1]) {
      if k > 0 {
        assert outs[1..][k - 1] == outs[k] && states[1..][k - 1] == states[k] && states[1..][k] == states[k + 1];
      }
    }
  }

  /**
   * The expansion of a text, line by line: fences and what stands in them, code spans and unresolved
   * references stay, and every reference that leads to a new file within the budget is that file, expanded.
   */
  lemma ExpandIs(f: Files, contents: string, base: string, depth: nat, st: State)
    returns (lines: seq<string>, outs: seq<string>, states: seq<State>)
    ensures lines != [] && Join(lines, "\n") == contents && forall l :: l in lines ==> '\n' !in l
    ensures LinesAre(f, lines, 0, base, depth, outs, states) && states[0] == st
    ensures Expand(f, contents, base, depth, st) == (Join(outs, "\n"), states[|lines|])
  {
    hide ExpandLines, Split, Join, LinesAre;
    lines := Split(contents, "\n");
    NoFenceYet(lines);
    states := LinesAreThat(f, lines, 0, None, base, depth, st);
    outs := ExpandLines(f, lines, None, base, depth, st).0;
    assert lines[0..] == lines;
    JoinSplit(contents, "\n");
    LinesHoldNoNewline(contents);
    LinesSizes(f, lines, base, depth, outs, states);
  }

  lemma LinesSizes(f: Files, lines: seq<string>, base: string, depth: nat, outs: seq<string>, states: seq<State>)
    requires LinesAre(f, lines, 0, base, depth, outs, states)
    ensures |outs| == |lines| && |states| == |lines| + 1
  {}
}
