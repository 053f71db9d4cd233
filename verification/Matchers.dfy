/**
 * The fuzzy matchers behind an edit: each finds blocks of whole lines of a file that are close to the
 * text the model asked for, and cuts the real text of each block out of the file by offsets.
 */
module Matchers {
  import opened Text
  import opened Spacing
  import EditDistance

  function Lines(s: string): (lines: seq<string>)
    ensures lines != []
  {
    Split(s, "\n")
  }

  /** Lines `first` to `last` of a file, both included. */
  datatype Range = Range(first: nat, last: nat)

  predicate InFile(lines: seq<string>, r: Range) {
    r.first <= r.last < |lines|
  }

  /** The text of a block of whole lines. */
  function Block(lines: seq<string>, r: Range): string
    requires InFile(lines, r)
  {
    Join(lines[r.first..r.last + 1], "\n")
  }

  predicate AllInFile(lines: seq<string>, ranges: seq<Range>) {
    forall r :: r in ranges ==> InFile(lines, r)
  }

  function Blocks(lines: seq<string>, ranges: seq<Range>): (spans: seq<string>)
    requires AllInFile(lines, ranges)
    ensures |spans| == |ranges|
    ensures forall k :: 0 <= k < |ranges| ==> spans[k] == Block(lines, ranges[k])
  {
    seq(|ranges|, k requires 0 <= k < |ranges| => Block(lines, ranges[k]))
  }

  // --------------------------------------------------------------------- cutting lines by offset

  /** Offset of the first character of line `k`. */
  function LineStart(lines: seq<string>, k: nat): nat
    requires k <= |lines|
  {
    if k == 0 then 0 else LineStart(lines, k - 1) + |lines[k - 1]| + 1
  }

  lemma {:induction false} LineStartTail(lines: seq<string>, k: nat)
    requires 0 < k <= |lines|
    ensures LineStart(lines, k) == |lines[0]| + 1 + LineStart(lines[1..], k - 1)
    decreases k
  {
    if k > 1 { LineStartTail(lines, k - 1); }
  }

  lemma {:induction false} FrontLines(lines: seq<string>, n: nat)
    requires n < |lines|
    ensures LineStart(lines, n) + |lines[n]| <= |Join(lines, "\n")|
    ensures Join(lines, "\n")[..LineStart(lines, n) + |lines[n]|] == Join(lines[..n + 1], "\n")
    decreases |lines|
  {
    if n == 0 {
      assert lines[..1] == [lines[0]];
    } else {
      LineStartTail(lines, n);
      FrontLines(lines[1..], n - 1);
      assert lines[..n + 1][1..] == lines[1..][..n];
      var t := Join(lines[1..], "\n");
      assert Join(lines, "\n") == lines[0] + "\n" + t;
      var m := LineStart(lines[1..], n - 1) + |lines[n]|;
      assert (lines[0] + "\n" + t)[..|lines[0]| + 1 + m] == lines[0] + "\n" + t[..m];
    }
  }

  lemma {:induction false} BackLines(lines: seq<string>, n: nat)
    requires n < |lines|
    ensures LineStart(lines, n) <= |Join(lines, "\n")|
    ensures Join(lines, "\n")[LineStart(lines, n)..] == Join(lines[n..], "\n")
    decreases |lines|
  {
    if n > 0 {
      LineStartTail(lines, n);
      BackLines(lines[1..], n - 1);
      assert lines[1..][n - 1..] == lines[n..];
      var t := Join(lines[1..], "\n");
      assert Join(lines, "\n") == lines[0] + "\n" + t;
      var m := LineStart(lines[1..], n - 1);
      assert (lines[0] + "\n" + t)[|lines[0]| + 1 + m..] == t[m..];
    }
  }

  lemma {:induction false} LineStartShift(lines: seq<string>, a: nat, k: nat)
    requires a + k <= |lines|
    ensures LineStart(lines, a + k) == LineStart(lines, a) + LineStart(lines[a..], k)
    decreases k
  {
    if k > 0 { LineStartShift(lines, a, k - 1); }
  }

  /** The characters between the two offsets are the block of lines. */
  lemma CutIsBlock(content: string, lines: seq<string>, r: Range)
    requires lines == Lines(content) && InFile(lines, r)
    ensures LineStart(lines, r.first) <= LineStart(lines, r.last) + |lines[r.last]| <= |content|
    ensures content[LineStart(lines, r.first)..LineStart(lines, r.last) + |lines[r.last]|] == Block(lines, r)
  {
    hide Split, Join, LineStart;
    JoinSplit(content, "\n");
    BackLines(lines, r.first);
    var rest, n := lines[r.first..], r.last - r.first;
    FrontLines(rest, n);
    LineStartShift(lines, r.first, n);
    assert rest[..n + 1] == lines[r.first..r.last + 1];
    var a, b := LineStart(lines, r.first), LineStart(lines, r.last) + |lines[r.last]|;
    assert content[a..][..b - a] == content[a..b];
  }

  method LineStartOffset(lines: seq<string>, line: nat) returns (offset: nat)
    requires line <= |lines|
    ensures offset == LineStart(lines, line)
  {
    offset := 0;
    for k := 0 to line
      invariant offset == LineStart(lines, k)
    {
      offset := offset + |lines[k]| + 1;
    }
  }

  method SpanOfLines(content: string, lines: seq<string>, startLine: nat, endLine: nat) returns (span: string)
    requires lines == Lines(content) && startLine <= endLine < |lines|
    ensures span == Block(lines, Range(startLine, endLine))
  {
    var start := LineStartOffset(lines, startLine);
    var end := start;
    for k := startLine to endLine + 1
      invariant end == if k <= endLine then LineStart(lines, k) else LineStart(lines, endLine) + |lines[endLine]|
    {
      end := end + |lines[k]|;
      if k < endLine { end := end + 1; }
    }
    CutIsBlock(content, lines, Range(startLine, endLine));
    return content[start..end];
  }

  // ---------------------------------------------------------------------------- line by line, trimmed

  function TrimTrailingEmpty(lines: seq<string>): seq<string> {
    if |lines| > 0 && lines[|lines| - 1] == "" then lines[..|lines| - 1] else lines
  }

  predicate SameTrimmed(original: seq<string>, search: seq<string>, i: nat, n: nat)
    requires i + n <= |original| && n <= |search|
  {
    forall j :: 0 <= j < n ==> Trim(original[i + j]) == Trim(search[j])
  }

  /** Blocks starting on the first `n` lines that equal the searched lines but for outer white space. */
  function TrimmedRanges(original: seq<string>, search: seq<string>, n: nat): (ranges: seq<Range>)
    requires 0 < |search| && n + |search| <= |original| + 1
    ensures AllInFile(original, ranges)
  {
    if n == 0 then []
    else
      TrimmedRanges(original, search, n - 1)
      + if SameTrimmed(original, search, n - 1, |search|) then [Range(n - 1, n + |search| - 2)] else []
  }

  function LineTrimmed(content: string, find: string): (ranges: seq<Range>)
    ensures AllInFile(Lines(content), ranges)
  {
    var original, search := Lines(content), TrimTrailingEmpty(Lines(find));
    if search == [] || |original| < |search| then []
    else TrimmedRanges(original, search, |original| - |search| + 1)
  }

  method LineTrimmedMatch(content: string, find: string) returns (spans: seq<string>)
    ensures spans == Blocks(Lines(content), LineTrimmed(content, find))
  {
    var original, search := Lines(content), TrimTrailingEmpty(Lines(find));
    hide Lines, TrimTrailingEmpty, Trim, Block, TrimmedRanges;
    if |search| == 0 || |original| < |search| { return []; }
    spans := ScanTrimmed(content, original, search);
  }

  /** The outer scan over the first lines. */
  method ScanTrimmed(content: string, original: seq<string>, search: seq<string>) returns (spans: seq<string>)
    requires original == Lines(content) && 0 < |search| <= |original|
    ensures spans == Blocks(original, TrimmedRanges(original, search, |original| - |search| + 1))
  {
    hide Lines, Trim, Block, SameTrimmed;
    spans := [];
    var i := 0;
    while i <= |original| - |search|
      invariant 0 <= i <= |original| - |search| + 1
      invariant spans == Blocks(original, TrimmedRanges(original, search, i))
    {
      var matches := MatchesTrimmed(original, search, i);
      if matches {
        var span := SpanOfLines(content, original, i, i + |search| - 1);
        spans := spans + [span];
      }
      i := i + 1;
    }
  }

  method MatchesTrimmed(original: seq<string>, search: seq<string>, i: nat) returns (matches: bool)
    requires i + |search| <= |original|
    ensures matches <==> SameTrimmed(original, search, i, |search|)
  {
    hide Trim;
    var j := 0;
    while j < |search|
      invariant 0 <= j <= |search|
      invariant SameTrimmed(original, search, i, j)
    {
      if Trim(original[i + j]) != Trim(search[j]) { return false; }
      j := j + 1;
    }
    return true;
  }

  // --------------------------------------------------------------------------------- by its anchors

  /** Similarity of one interior line of the block at `first` with line `j` of the search. */
  function LineSimilarity(original: seq<string>, search: seq<string>, first: nat, j: nat): real
    requires first + j < |original| && j < |search|
  {
    var a, b := Trim(original[first + j]), Trim(search[j]);
    var maxLen := EditDistance.Max(|a|, |b|);
    if maxLen == 0 then 1.0 else 1.0 - EditDistance.Dist(a, b) as real / maxLen as real
  }

  function SimilaritySum(original: seq<string>, search: seq<string>, first: nat, n: nat): real
    requires n == 0 || (first + n < |original| && n < |search|)
  {
    if n == 0 then 0.0
    else SimilaritySum(original, search, first, n - 1) + LineSimilarity(original, search, first, n)
  }

  function InteriorLines(search: seq<string>, r: Range): int {
    var block := r.last - r.first + 1;
    if |search| - 2 <= block - 2 then |search| - 2 else block - 2
  }

  /** Mean similarity of the interior lines, 1 when there are none. */
  function MiddleSimilarity(original: seq<string>, search: seq<string>, r: Range): real
    requires InFile(original, r)
  {
    var n := InteriorLines(search, r);
    if n <= 0 then 1.0 else SimilaritySum(original, search, r.first, n) / n as real
  }

  lemma LineSimilarityRange(original: seq<string>, search: seq<string>, first: nat, j: nat)
    requires first + j < |original| && j < |search|
    ensures 0.0 <= LineSimilarity(original, search, first, j) <= 1.0
    ensures LineSimilarity(original, search, first, j) == 1.0 <==> Trim(original[first + j]) == Trim(search[j])
  {
    var a, b := Trim(original[first + j]), Trim(search[j]);
    EditDistance.Bounds(a, b);
    EditDistance.ZeroIffEqual(a, b);
    hide Trim, EditDistance.Dist;
    var maxLen, d := EditDistance.Max(|a|, |b|), EditDistance.Dist(a, b);
    if maxLen > 0 {
      Ratio(d, maxLen);
    }
  }

  lemma Ratio(d: nat, n: nat)
    requires d <= n && n > 0
    ensures 0.0 <= d as real / n as real <= 1.0
    ensures d as real / n as real == 0.0 <==> d == 0
  {
    Quotient(d as real, n as real);
  }

  lemma Quotient(x: real, y: real)
    requires 0.0 <= x <= y && y > 0.0
    ensures 0.0 <= x / y <= 1.0
    ensures (x / y == 1.0 <==> x == y) && (x / y == 0.0 <==> x == 0.0)
  {
    var q := x / y;
    assert q * y == x;
    assert q > 1.0 ==> q * y > 1.0 * y;
    assert q < 0.0 ==> (-q) * y > 0.0;
  }

  ghost predicate SameInterior(original: seq<string>, search: seq<string>, first: nat, n: int)
    requires n <= 0 || (first + n < |original| && n < |search|)
  {
    forall j :: 1 <= j <= n ==> Trim(original[first + j]) == Trim(search[j])
  }

  lemma SameInteriorStep(original: seq<string>, search: seq<string>, first: nat, n: int)
    requires n > 0 && first + n < |original| && n < |search|
    ensures SameInterior(original, search, first, n) <==>
      SameInterior(original, search, first, n - 1) && Trim(original[first + n]) == Trim(search[n])
  {
    hide Trim;
  }

  lemma {:induction false} SumRange(original: seq<string>, search: seq<string>, first: nat, n: nat)
    requires n == 0 || (first + n < |original| && n < |search|)
    ensures 0.0 <= SimilaritySum(original, search, first, n) <= n as real
    ensures SimilaritySum(original, search, first, n) == n as real <==> SameInterior(original, search, first, n)
    decreases n
  {
    hide LineSimilarity, Trim;
    if n > 0 {
      SumRange(original, search, first, n - 1);
      LineSimilarityRange(original, search, first, n);
      SameInteriorStep(original, search, first, n);
      hide SameInterior;
      assert n as real == (n - 1) as real + 1.0;
    }
  }

  /** Between 0 and 1, and 1 exactly when the compared interior lines agree but for outer white space. */
  lemma SimilarityRange(original: seq<string>, search: seq<string>, r: Range)
    requires InFile(original, r)
    ensures 0.0 <= MiddleSimilarity(original, search, r) <= 1.0
    ensures MiddleSimilarity(original, search, r) == 1.0 <==>
      SameInterior(original, search, r.first, InteriorLines(search, r))
  {
    var n := InteriorLines(search, r);
    if n > 0 {
      SumRange(original, search, r.first, n);
      hide SimilaritySum, SameInterior;
      Quotient(SimilaritySum(original, search, r.first, n), n as real);
    }
  }

  method ComputeMiddleSimilarity(original: seq<string>, search: seq<string>, r: Range) returns (s: real)
    requires InFile(original, r)
    ensures s == MiddleSimilarity(original, search, r)
  {
    hide Trim, EditDistance.Dist, EditDistance.IsEditDistance;
    var actual := r.last - r.first + 1;
    var toCheck := if |search| - 2 <= actual - 2 then |search| - 2 else actual - 2;
    if toCheck <= 0 { return 1.0; }
    var total := 0.0;
    for j := 1 to toCheck + 1
      invariant total == SimilaritySum(original, search, r.first, j - 1)
    {
      var a, b := Trim(original[r.first + j]), Trim(search[j]);
      var maxLen := EditDistance.Max(|a|, |b|);
      if maxLen == 0 {
        total := total + 1.0;
      } else {
        var d := EditDistance.Levenshtein(a, b);
        total := total + (1.0 - d as real / maxLen as real);
      }
    }
    return total / toCheck as real;
  }

  const SIMILARITY_THRESHOLD := 0.65

  function MaxLineDelta(size: nat): nat { EditDistance.Max(1, size / 4) }

  /** The block starts and ends like the search, is about as long, and its interior is close enough. */
  predicate Anchored(original: seq<string>, search: seq<string>, r: Range)
    requires InFile(original, r) && |search| > 0
  {
    && r.first + 2 <= r.last
    && Trim(original[r.first]) == Trim(search[0])
    && Trim(original[r.last]) == Trim(search[|search| - 1])
    && |search| - MaxLineDelta(|search|) <= r.last - r.first + 1 <= |search| + MaxLineDelta(|search|)
    && MiddleSimilarity(original, search, r) >= SIMILARITY_THRESHOLD
  }

  /** Anchored blocks that start at line `i` and end before line `j`. */
  function AnchoredAt(original: seq<string>, search: seq<string>, i: nat, j: nat): (ranges: seq<Range>)
    requires |search| > 0 && j <= |original|
    ensures AllInFile(original, ranges)
  {
    if j <= i + 2 then []
    else
      AnchoredAt(original, search, i, j - 1)
      + if Anchored(original, search, Range(i, j - 1)) then [Range(i, j - 1)] else []
  }

  /** Anchored blocks that start before line `n`. */
  function AnchoredRanges(original: seq<string>, search: seq<string>, n: nat): (ranges: seq<Range>)
    requires |search| > 0 && n <= |original|
    ensures AllInFile(original, ranges)
  {
    if n == 0 then []
    else AnchoredRanges(original, search, n - 1) + AnchoredAt(original, search, n - 1, |original|)
  }

  function BlockAnchored(content: string, find: string): (ranges: seq<Range>)
    ensures AllInFile(Lines(content), ranges)
  {
    var original, search := Lines(content), TrimTrailingEmpty(Lines(find));
    if |search| < 3 then [] else AnchoredRanges(original, search, |original|)
  }

  lemma {:induction false} NoneAnchored(original: seq<string>, search: seq<string>, i: nat, j: nat, k: nat)
    requires |search| > 0 && i + 2 <= j <= k <= |original|
    requires Trim(original[i]) != Trim(search[0]) || j - i + 1 > |search| + MaxLineDelta(|search|)
    ensures AnchoredAt(original, search, i, k) == AnchoredAt(original, search, i, j)
    decreases k
  {
    hide Trim, MiddleSimilarity;
    if k > j { NoneAnchored(original, search, i, j, k - 1); }
  }

  lemma BlocksAppend(lines: seq<string>, a: seq<Range>, b: seq<Range>)
    requires AllInFile(lines, a) && AllInFile(lines, b)
    ensures AllInFile(lines, a + b) && Blocks(lines, a + b) == Blocks(lines, a) + Blocks(lines, b)
  {
    hide Block;
  }

  method BlockAnchorMatch(content: string, find: string) returns (spans: seq<string>)
    ensures spans == Blocks(Lines(content), BlockAnchored(content, find))
  {
    var original, search := Lines(content), TrimTrailingEmpty(Lines(find));
    spans := [];
    if |search| < 3 { return; }
    hide TrimTrailingEmpty, Trim, MiddleSimilarity, Blocks, Block;
    assert Blocks(original, []) == [];
    for i := 0 to |original|
      invariant spans == Blocks(original, AnchoredRanges(original, search, i))
    {
      var row := AnchorRow(content, original, search, i);
      BlocksAppend(original, AnchoredRanges(original, search, i), AnchoredAt(original, search, i, |original|));
      spans := spans + row;
    }
  }

  /** The inner scan for one first line. */
  method AnchorRow(content: string, original: seq<string>, search: seq<string>, i: nat) returns (spans: seq<string>)
    requires original == Lines(content) && i < |original| && |search| >= 3
    ensures spans == Blocks(original, AnchoredAt(original, search, i, |original|))
  {
    hide Lines, Trim, MiddleSimilarity, Block;
    spans := [];
    if i + 2 > |original| { return; }
    if Trim(original[i]) != Trim(search[0]) {
      NoneAnchored(original, search, i, i + 2, |original|);
      return;
    }
    var delta := MaxLineDelta(|search|);
    var j := i + 2;
    while j < |original|
      invariant i + 2 <= j <= |original|
      invariant spans == Blocks(original, AnchoredAt(original, search, i, j))
    {
      if j - i + 1 > |search| + delta {
        NoneAnchored(original, search, i, j, |original|);
        return;
      }
      if Trim(original[j]) == Trim(search[|search| - 1]) && j - i + 1 >= |search| - delta {
        var similarity := ComputeMiddleSimilarity(original, search, Range(i, j));
        if similarity >= SIMILARITY_THRESHOLD {
          var span := SpanOfLines(content, original, i, j);
          spans := spans + [span];
        }
      }
      j := j + 1;
    }
  }

  // ------------------------------------------------------------- with white space runs collapsed

  /** Every run of white space becomes one blank. */
  function Collapse(s: string): string {
    if s == "" then ""
    else if IsSpace(s[0]) then
      if |s| > 1 && IsSpace(s[1]) then Collapse(s[1..]) else " " + Collapse(s[1..])
    else [s[0]] + Collapse(s[1..])
  }

  function Normalize(s: string): string { Trim(Collapse(s)) }

  lemma {:induction false} CollapseGap(g: string, rest: string)
    requires IsGap(g, Space()) && !(rest != "" && IsSpace(rest[0]))
    ensures Collapse(g + rest) == Short(g, ' ') + Collapse(rest)
    decreases |g|
  {
    hide IsSpace;
    if g == "" {
      assert g + rest == rest && "" + Collapse(rest) == Collapse(rest);
    } else {
      assert g[0] in g && (g + rest)[1..] == g[1..] + rest;
      CollapseGap(g[1..], rest);
      if |g| > 1 { assert g[1] in g; } else { assert "" + Collapse(rest) == Collapse(rest); }
    }
  }

  lemma {:induction false} CollapseWord(w: string, rest: string)
    requires forall c :: c in w ==> !IsSpace(c)
    ensures Collapse(w + rest) == w + Collapse(rest)
    decreases |w|
  {
    hide IsSpace;
    if w == "" {
      assert w + rest == rest && w + Collapse(rest) == Collapse(rest);
    } else {
      assert w[0] in w && (w + rest)[1..] == w[1..] + rest;
      CollapseWord(w[1..], rest);
      assert [w[0]] + (w[1..] + Collapse(rest)) == w + Collapse(rest);
    }
  }

  lemma CollapseNothing()
    ensures Collapse("") == ""
  {}

  lemma {:induction false} CollapseWeave(gaps: seq<string>, words: seq<string>)
    requires Spaced(gaps, words, Space())
    ensures |gaps| == |words| + 1 && Collapse(Weave(gaps, words)) == Shortened(gaps, words, ' ')
    decreases |words|
  {
    hide Spaced, Weave, Shortened, Short, Collapse, IsGap, IsWord;
    SpacedLengths(gaps, words, Space());
    WeaveStep(gaps, words);
    if words == [] {
      OnlyGap(gaps, Space());
      CollapseGap(gaps[0], "");
      CollapseNothing();
      assert gaps[0] + "" == gaps[0] && Short(gaps[0], ' ') + "" == Short(gaps[0], ' ');
      ShortenedNone(gaps);
    } else {
      SpacedTail(gaps, words, Space());
      var rest := Weave(gaps[1..], words[1..]);
      NoSpaceIn(words[0]);
      assert words[0][0] in words[0] && (words[0] + rest)[0] == words[0][0];
      CollapseGap(gaps[0], words[0] + rest);
      CollapseWord(words[0], rest);
      CollapseWeave(gaps[1..], words[1..]);
      ShortenedStep(gaps, words, Space(), ' ');
    }
  }

  lemma ShortenedNone(gaps: seq<string>)
    requires |gaps| == 1
    ensures Shortened(gaps, [], ' ') == Short(gaps[0], ' ')
  {}

  /** A normalized text is its words, joined by one blank. */
  lemma NormalizeJoins(s: string)
    ensures Normalize(s) == Join(Words(s, ""), " ")
  {
    hide Spaced, Weave, Words, Shortened, Collapse, Trim, Join;
    var gaps, words := CutWords(s, Space());
    WordsOfWeave(gaps, words);
    CollapseWeave(gaps, words);
    TrimShortened(gaps, words);
  }

  lemma TrimShortened(gaps: seq<string>, words: seq<string>)
    requires Spaced(gaps, words, Space())
    ensures |gaps| == |words| + 1 && Trim(Shortened(gaps, words, ' ')) == Join(words, " ")
  {
    SpacedLengths(gaps, words, Space());
    SpaceIsSpace();
    hide Spaced, Trim, Join, IsSpace;
    var front, back := Short(gaps[0], ' '), Short(gaps[|words|], ' ');
    TrimBlank(" ");
    TrimBlank("");
    if words == [] {
      JoinNone();
    } else {
      JoinEnds(gaps, words);
      var j := Join(words, " ");
      TrimBetween(front, j, back);
    }
  }

  lemma JoinNone()
    ensures Join([], " ") == ""
  {}

  lemma TrimBetween(front: string, j: string, back: string)
    requires j != "" && !IsSpace(j[0]) && !IsSpace(j[|j| - 1]) && IsSpace(' ')
    requires (front == "" || front == " ") && (back == "" || back == " ")
    ensures Trim(front + (j + back)) == j
  {
    hide IsSpace, TrimStart, TrimEnd;
    var t := j + back;
    TrimStartSame(t);
    SpaceBefore(t);
    TrimEndSame(j);
    SpaceBehind(j);
    assert "" + t == t && j + "" == j;
  }

  /** Joined words begin and end with no white space. */
  lemma {:induction false} JoinEnds(gaps: seq<string>, words: seq<string>)
    requires Spaced(gaps, words, Space()) && words != []
    ensures var j := Join(words, " "); j != "" && !IsSpace(j[0]) && !IsSpace(j[|j| - 1])
    decreases |words|
  {
    hide Spaced, Join, IsSpace, IsGap, IsWord;
    SpacedLengths(gaps, words, Space());
    SpacedTail(gaps, words, Space());
    NoSpaceIn(words[0]);
    var w, rest := words[0], words[1..];
    assert w[0] in w && w[|w| - 1] in w && words == [w] + rest;
    if rest == [] {
      assert words == [w];
      JoinOne(w, " ");
    } else {
      JoinCons(w, rest, " ");
      JoinEnds(gaps[1..], rest);
    }
  }

  /** The two texts have the same words. */
  ghost predicate SameWords(a: string, b: string) {
    exists words :: HasWords(a, words, Space()) && HasWords(b, words, Space())
  }

  lemma SameWordsIff(a: string, b: string)
    ensures SameWords(a, b) <==> Words(a, "") == Words(b, "")
  {
    hide HasWords, Words;
    forall words ensures HasWords(a, words, Space()) <==> words == Words(a, "") { WordsIff(a, words); }
    forall words ensures HasWords(b, words, Space()) <==> words == Words(b, "") { WordsIff(b, words); }
    var words := Words(a, "");
    assert HasWords(a, words, Space());
    assert words == Words(b, "") ==> HasWords(b, words, Space());
  }

  /** Normalizing forgets the white space and nothing else. */
  lemma NormalizeIff(a: string, b: string)
    ensures Normalize(a) == Normalize(b) <==> SameWords(a, b)
    ensures Normalize(a) == "" <==> HasWords(a, [], Space())
  {
    hide Normalize, SameWords, Words, HasWords, Join, Split;
    NormalizeJoins(a);
    NormalizeJoins(b);
    SameWordsIff(a, b);
    WordsIff(a, []);
    JoinedWords(a);
    JoinedWords(b);
    JoinNone();
  }

  /** Joined words can be told apart again. */
  lemma JoinedWords(s: string)
    ensures var words := Words(s, ""); words != [] ==> Join(words, " ") != "" && Split(Join(words, " "), " ") == words
  {
    hide Words, Join, Split, Spaced, Weave;
    var gaps, words := CutWords(s, Space());
    WordsOfWeave(gaps, words);
    if words != [] {
      JoinEnds(gaps, words);
      NoBlankInWords(gaps, words);
      SplitJoin(words, ' ');
    }
  }

  lemma NoBlankInWords(gaps: seq<string>, words: seq<string>)
    requires Spaced(gaps, words, Space())
    ensures forall w :: w in words ==> ' ' !in w
  {
    SpaceIsSpace();
    hide IsSpace, IsGap;
    forall w | w in words ensures ' ' !in w {
      assert IsWord(w, Space());
    }
  }

  /** Blocks of `size` lines starting on the first `n` lines that normalize to `wanted`. */
  function NormalizedRanges(lines: seq<string>, wanted: string, size: nat, n: nat): (ranges: seq<Range>)
    requires 0 < size && n + size <= |lines| + 1
    ensures AllInFile(lines, ranges)
  {
    hide Normalize, Block;
    if n == 0 then []
    else
      var r := Range(n - 1, n + size - 2);
      NormalizedRanges(lines, wanted, size, n - 1) + if Normalize(Block(lines, r)) == wanted then [r] else []
  }

  function WhitespaceNormalized(content: string, find: string): (ranges: seq<Range>)
    ensures AllInFile(Lines(content), ranges)
  {
    var lines, wanted, size := Lines(content), Normalize(find), |Lines(find)|;
    if wanted == "" then []
    else
      var single := NormalizedRanges(lines, wanted, 1, |lines|);
      if single != [] then single
      else if 1 < size <= |lines| then NormalizedRanges(lines, wanted, size, |lines| - size + 1)
      else []
  }

  lemma SingleBlock(lines: seq<string>, i: nat)
    requires i < |lines|
    ensures Block(lines, Range(i, i)) == lines[i]
  {
    assert lines[i..i + 1] == [lines[i]];
  }

  method WhitespaceNormalizedMatch(content: string, find: string) returns (spans: seq<string>)
    ensures spans == Blocks(Lines(content), WhitespaceNormalized(content, find))
  {
    var wanted := Normalize(find);
    var lines, findLines := Lines(content), Lines(find);
    hide Lines, Normalize, Block, NormalizedRanges;
    if wanted == "" { return []; }
    spans := SingleLines(lines, wanted);
    if |spans| > 0 { return; }
    if 1 < |findLines| <= |lines| {
      spans := Windows(lines, wanted, |findLines|);
    }
  }

  method SingleLines(lines: seq<string>, wanted: string) returns (spans: seq<string>)
    ensures spans == Blocks(lines, NormalizedRanges(lines, wanted, 1, |lines|))
  {
    hide Normalize, Block;
    spans := [];
    for i := 0 to |lines|
      invariant spans == Blocks(lines, NormalizedRanges(lines, wanted, 1, i))
    {
      SingleBlock(lines, i);
      if Normalize(lines[i]) == wanted { spans := spans + [lines[i]]; }
    }
  }

  method Windows(lines: seq<string>, wanted: string, size: nat) returns (blocks: seq<string>)
    requires 1 < size <= |lines|
    ensures blocks == Blocks(lines, NormalizedRanges(lines, wanted, size, |lines| - size + 1))
  {
    hide Normalize;
    blocks := [];
    for i := 0 to |lines| - size + 1
      invariant blocks == Blocks(lines, NormalizedRanges(lines, wanted, size, i))
    {
      var block := Join(lines[i..i + size], "\n");
      assert block == Block(lines, Range(i, i + size - 1));
      hide Block;
      if Normalize(block) == wanted { blocks := blocks + [block]; }
    }
  }

  // -------------------------------------------------------------------------------------- the ladder

  /** The candidates of the first matcher that has any. */
  function Candidates(content: string, find: string): (ranges: seq<Range>)
    ensures AllInFile(Lines(content), ranges)
  {
    if LineTrimmed(content, find) != [] then LineTrimmed(content, find)
    else if BlockAnchored(content, find) != [] then BlockAnchored(content, find)
    else WhitespaceNormalized(content, find)
  }

  method FindFuzzyMatch(content: string, find: string) returns (spans: seq<string>)
    ensures spans == Blocks(Lines(content), Candidates(content, find))
  {
    hide Lines, LineTrimmed, BlockAnchored, WhitespaceNormalized, Block;
    spans := LineTrimmedMatch(content, find);
    if |spans| > 0 { return; }
    spans := BlockAnchorMatch(content, find);
    if |spans| > 0 { return; }
    spans := WhitespaceNormalizedMatch(content, find);
  }

  // ------------------------------------------------------------------- what the candidates are

  lemma {:induction false} TrimmedRangesExactly(original: seq<string>, search: seq<string>, n: nat, r: Range)
    requires 0 < |search| && n + |search| <= |original| + 1
    ensures r in TrimmedRanges(original, search, n) <==>
      r.first < n && r.last == r.first + |search| - 1 && SameTrimmed(original, search, r.first, |search|)
    decreases n
  {
    hide SameTrimmed;
    if n > 0 { TrimmedRangesExactly(original, search, n - 1, r); }
  }

  /** All blocks as long as the search whose lines equal its lines but for outer white space, and no others. */
  lemma LineTrimmedExactly(content: string, find: string, r: Range)
    ensures var original, search := Lines(content), TrimTrailingEmpty(Lines(find));
      r in LineTrimmed(content, find) <==>
        && search != [] && InFile(original, r) && r.last == r.first + |search| - 1
        && SameTrimmed(original, search, r.first, |search|)
  {
    var original, search := Lines(content), TrimTrailingEmpty(Lines(find));
    hide Lines, TrimTrailingEmpty, TrimmedRanges, SameTrimmed;
    if search != [] && |search| <= |original| {
      TrimmedRangesExactly(original, search, |original| - |search| + 1, r);
    }
  }

  lemma {:induction false} AnchoredAtExactly(original: seq<string>, search: seq<string>, i: nat, j: nat, r: Range)
    requires |search| > 0 && j <= |original|
    ensures r in AnchoredAt(original, search, i, j) <==>
      r.first == i && r.last < j && InFile(original, r) && Anchored(original, search, r)
    decreases j
  {
    hide Trim, MiddleSimilarity, MaxLineDelta;
    if j > i + 2 {
      hide Anchored;
      AnchoredAtExactly(original, search, i, j - 1, r);
    }
  }

  lemma {:induction false} AnchoredRangesExactly(original: seq<string>, search: seq<string>, n: nat, r: Range)
    requires |search| > 0 && n <= |original|
    ensures r in AnchoredRanges(original, search, n) <==>
      r.first < n && InFile(original, r) && Anchored(original, search, r)
    decreases n
  {
    hide AnchoredAt, Anchored;
    if n > 0 {
      AnchoredRangesExactly(original, search, n - 1, r);
      AnchoredAtExactly(original, search, n - 1, |original|, r);
    }
  }

  /** All anchored blocks and no others, for a search of at least three lines. */
  lemma BlockAnchoredExactly(content: string, find: string, r: Range)
    ensures var original, search := Lines(content), TrimTrailingEmpty(Lines(find));
      r in BlockAnchored(content, find) <==>
        |search| >= 3 && InFile(original, r) && Anchored(original, search, r)
  {
    var original, search := Lines(content), TrimTrailingEmpty(Lines(find));
    hide Lines, TrimTrailingEmpty, AnchoredRanges, Anchored;
    if |search| >= 3 { AnchoredRangesExactly(original, search, |original|, r); }
  }

  lemma {:induction false} NormalizedExactly(lines: seq<string>, wanted: string, size: nat, n: nat, r: Range)
    requires 0 < size && n + size <= |lines| + 1
    ensures r in NormalizedRanges(lines, wanted, size, n) <==>
      r.first < n && r.last == r.first + size - 1 && Normalize(Block(lines, r)) == wanted
    decreases n
  {
    hide Normalize, Block;
    if n > 0 { NormalizedExactly(lines, wanted, size, n - 1, r); }
  }

  // ----------------------------------------------------------- what the matchers mean, without them

  /** One line break at the end of the searched text does not matter; nothing else is dropped. */
  lemma TrailingBreakIgnored(t: string)
    ensures TrimTrailingEmpty(Lines(t + "\n")) == Lines(t)
    ensures t != "" && t[|t| - 1] != '\n' ==> TrimTrailingEmpty(Lines(t)) == Lines(t)
    ensures TrimTrailingEmpty(Lines("")) == []
  {
    LinesConcat(t, "");
    LinesOfNothing();
    assert t + "\n" + "" == t + "\n";
    LastLineEmpty(t);
    hide Split;
  }

  lemma LinesOfNothing()
    ensures Lines("") == [""]
  {}

  lemma LastLineEmpty(t: string)
    ensures var lines := Lines(t); lines[|lines| - 1] == "" ==> t == "" || t[|t| - 1] == '\n'
  {
    JoinSplit(t, "\n");
    hide Split, Join;
    var lines := Split(t, "\n");
    var front := lines[..|lines| - 1];
    assert lines == front + [lines[|lines| - 1]];
    JoinOne("", "\n");
    if lines[|lines| - 1] == "" {
      if front == [] {
        assert lines == [""];
      } else {
        JoinConcat(front, [""]);
        assert t == Join(front, "\n") + "\n" + "";
      }
    }
  }

  /** The interior similarity of a line is one less the share of the longer line that has to be edited. */
  lemma SimilarityCountsEdits(original: seq<string>, search: seq<string>, first: nat, j: nat)
    requires first + j < |original| && j < |search|
    ensures var a, b := Trim(original[first + j]), Trim(search[j]);
      var longer := if |a| >= |b| then |a| else |b|;
      exists d: nat :: EditDistance.IsEditDistance(d, a, b)
        && LineSimilarity(original, search, first, j) * longer as real == (longer - d) as real
  {
    hide Trim, EditDistance.IsEditDistance, EditDistance.Dist;
    var a, b := Trim(original[first + j]), Trim(search[j]);
    var longer := if |a| >= |b| then |a| else |b|;
    var d := EditDistance.Dist(a, b);
    EditDistance.DistIsEditDistance(a, b);
    EditDistance.Bounds(a, b);
    if longer > 0 { Share(d, longer); }
  }

  lemma Share(d: nat, n: nat)
    requires d <= n && n > 0
    ensures (1.0 - d as real / n as real) * n as real == (n - d) as real
  {
    assert d as real / n as real * n as real == d as real;
  }

  function SumReals(xs: seq<real>): real {
    if xs == [] then 0.0 else SumReals(xs[..|xs| - 1]) + xs[|xs| - 1]
  }

  /** The similarities of the interior lines that are compared: as many as the shorter interior has. */
  function InteriorSimilarities(original: seq<string>, search: seq<string>, r: Range): seq<real>
    requires InFile(original, r)
  {
    var block := r.last - r.first + 1;
    var shorter := if |search| <= block then |search| else block;
    if shorter <= 2 then []
    else seq(shorter - 2, k requires 0 <= k < shorter - 2 => LineSimilarity(original, search, r.first, k + 1))
  }

  /** The similarity of a block is the mean over these lines. */
  lemma MiddleIsMean(original: seq<string>, search: seq<string>, r: Range)
    requires InFile(original, r)
    ensures var xs := InteriorSimilarities(original, search, r);
      if xs == [] then MiddleSimilarity(original, search, r) == 1.0
      else MiddleSimilarity(original, search, r) * |xs| as real == SumReals(xs)
  {
    hide LineSimilarity, SumReals, SimilaritySum;
    var xs := InteriorSimilarities(original, search, r);
    if xs != [] {
      SumIs(original, search, r, xs, |xs|);
      assert xs[..|xs|] == xs;
      Back(SumReals(xs), |xs|);
    }
  }

  lemma Back(x: real, n: nat)
    requires n > 0
    ensures x / n as real * n as real == x
  {}

  lemma {:induction false} SumIs(original: seq<string>, search: seq<string>, r: Range, xs: seq<real>, n: nat)
    requires InFile(original, r) && xs == InteriorSimilarities(original, search, r) && n <= |xs|
    ensures n == 0 || (r.first + n < |original| && n < |search|)
    ensures SumReals(xs[..n]) == SimilaritySum(original, search, r.first, n)
    decreases n
  {
    hide LineSimilarity;
    if n > 0 {
      SumIs(original, search, r, xs, n - 1);
      assert xs[..n][..n - 1] == xs[..n - 1];
    }
  }

  /** A block is anchored if and only if its ends match, its size is close and its interior similar on average. */
  lemma BlockAnchoredMeans(content: string, find: string, r: Range)
    ensures var original, search := Lines(content), TrimTrailingEmpty(Lines(find));
      var size, block := |search|, r.last - r.first + 1;
      r in BlockAnchored(content, find) <==>
        && InFile(original, r) && size >= 3 && block >= 3
        && Trim(original[r.first]) == Trim(search[0]) && Trim(original[r.last]) == Trim(search[size - 1])
        && (-1 <= block - size <= 1 || (4 * (block - size) <= size && 4 * (size - block) <= size))
        && MiddleSimilarity(original, search, r) >= 0.65
  {
    hide Lines, TrimTrailingEmpty, BlockAnchored, MiddleSimilarity, Trim;
    BlockAnchoredExactly(content, find, r);
  }

  /**
   * A block is reported by its words if and only if they are those of the searched text: a single line,
   * or with no such line a block of as many lines as are searched.
   */
  lemma SameWordsExactly(content: string, find: string, r: Range)
    ensures var lines := Lines(content);
      r in WhitespaceNormalized(content, find) <==>
        && InFile(lines, r) && SameWords(Block(lines, r), find) && !HasWords(find, [], Space())
        && (r.first == r.last
            || (r.last - r.first + 1 == |Lines(find)| && forall k: nat :: k < |lines| ==> !SameWords(lines[k], find)))
  {
    hide Lines, Normalize, NormalizedRanges, Block, SameWords, HasWords;
    var lines, wanted, size := Lines(content), Normalize(find), |Lines(find)|;
    NormalizeIff(find, find);
    NormalizedExactly(lines, wanted, 1, |lines|, r);
    if InFile(lines, r) { NormalizeIff(Block(lines, r), find); }
    forall k: nat | k < |lines|
      ensures SameWords(lines[k], find) <==> Range(k, k) in NormalizedRanges(lines, wanted, 1, |lines|)
    {
      NormalizedExactly(lines, wanted, 1, |lines|, Range(k, k));
      SingleBlock(lines, k);
      NormalizeIff(lines[k], find);
    }
    SinglesOnly(lines, wanted);
    if 1 < size <= |lines| { NormalizedExactly(lines, wanted, size, |lines| - size + 1, r); }
  }

  lemma SinglesOnly(lines: seq<string>, wanted: string)
    ensures NormalizedRanges(lines, wanted, 1, |lines|) != [] ==>
      exists k: nat :: k < |lines| && Range(k, k) in NormalizedRanges(lines, wanted, 1, |lines|)
  {
    hide NormalizedRanges, Normalize, Block;
    var ranges := NormalizedRanges(lines, wanted, 1, |lines|);
    if ranges != [] {
      var r := ranges[0];
      assert r in ranges;
      NormalizedExactly(lines, wanted, 1, |lines|, r);
      assert r == Range(r.first, r.first);
    }
  }

  /** Lines equal up to outer white space come first, then anchored blocks, then blocks with the same words. */
  lemma CandidatesLadder(content: string, find: string, r: Range)
    ensures r in Candidates(content, find) <==>
      || r in LineTrimmed(content, find)
      || (r in BlockAnchored(content, find) && forall q :: q !in LineTrimmed(content, find))
      || (r in WhitespaceNormalized(content, find)
          && forall q :: q !in LineTrimmed(content, find) && q !in BlockAnchored(content, find))
  {
    hide LineTrimmed, BlockAnchored, WhitespaceNormalized;
    var a, b := LineTrimmed(content, find), BlockAnchored(content, find);
    assert a != [] ==> a[0] in a;
    assert b != [] ==> b[0] in b;
  }

  // ------------------------------------------------- a candidate of a non-blank search is not empty

  lemma {:induction false} BlankJoin(parts: seq<string>)
    ensures Blank(Join(parts, "\n")) <==> forall p :: p in parts ==> Blank(p)
    decreases |parts|
  {
    if |parts| == 1 {
      assert parts == [parts[0]];
    } else if |parts| > 1 {
      var p, t := parts[0], Join(parts[1..], "\n");
      BlankJoin(parts[1..]);
      BlankConcat(p + "\n", t);
      BlankConcat(p, "\n");
      assert parts == [p] + parts[1..];
      assert Join(parts, "\n") == p + "\n" + t;
    }
  }

  lemma BlankConcat(a: string, b: string)
    ensures Blank(a + b) <==> Blank(a) && Blank(b)
  {
    hide IsSpace;
    forall c ensures c in a + b <==> c in a || c in b {}
  }

  /** A search with something other than white space keeps such a line. */
  lemma KeepsNonBlankLine(find: string) returns (j: nat)
    requires !Blank(find)
    ensures j < |TrimTrailingEmpty(Lines(find))| && !Blank(TrimTrailingEmpty(Lines(find))[j])
  {
    hide Blank, Join, Split;
    JoinSplit(find, "\n");
    BlankJoin(Lines(find));
    var p :| p in Lines(find) && !Blank(p);
    j :| 0 <= j < |Lines(find)| && Lines(find)[j] == p;
    BlankEmpty();
  }

  lemma BlankEmpty()
    ensures Blank("")
  {}

  lemma BlockHoldsLine(lines: seq<string>, r: Range, k: nat)
    requires InFile(lines, r) && r.first <= k <= r.last && !Blank(lines[k])
    ensures !Blank(Block(lines, r))
  {
    BlankJoin(lines[r.first..r.last + 1]);
    assert lines[r.first..r.last + 1][k - r.first] == lines[k];
  }

  lemma {:induction false} JoinLonger(parts: seq<string>)
    requires parts != []
    ensures |Join(parts, "\n")| >= |parts| - 1
    decreases |parts|
  {
    if |parts| > 1 { JoinLonger(parts[1..]); }
  }

  lemma {:induction false} CollapseBlank(s: string)
    ensures s == "" ==> Normalize(s) == ""
  {}

  lemma CandidateNotEmpty(content: string, find: string, r: Range)
    requires !Blank(find) && r in Candidates(content, find)
    ensures Block(Lines(content), r) != ""
  {
    hide LineTrimmed, BlockAnchored, WhitespaceNormalized, Block, Lines;
    if r in LineTrimmed(content, find) {
      TrimmedNotEmpty(content, find, r);
    } else if r in BlockAnchored(content, find) {
      AnchoredNotEmpty(content, find, r);
    } else {
      NormalizedNotEmpty(content, find, r);
    }
  }

  lemma TrimmedNotEmpty(content: string, find: string, r: Range)
    requires !Blank(find) && r in LineTrimmed(content, find)
    ensures Block(Lines(content), r) != ""
  {
    hide Lines, TrimTrailingEmpty, LineTrimmed, Trim, Blank, Block;
    var original, search := Lines(content), TrimTrailingEmpty(Lines(find));
    LineTrimmedExactly(content, find, r);
    var j := KeepsNonBlankLine(find);
    assert Trim(original[r.first + j]) == Trim(search[j]);
    TrimBlank(search[j]);
    TrimBlank(original[r.first + j]);
    BlockHoldsLine(original, r, r.first + j);
    BlankEmpty();
  }

  lemma AnchoredNotEmpty(content: string, find: string, r: Range)
    requires r in BlockAnchored(content, find)
    ensures Block(Lines(content), r) != ""
  {
    hide Lines, TrimTrailingEmpty, BlockAnchored, Trim, MiddleSimilarity;
    BlockAnchoredExactly(content, find, r);
    JoinLonger(Lines(content)[r.first..r.last + 1]);
  }

  lemma NormalizedNotEmpty(content: string, find: string, r: Range)
    requires r in WhitespaceNormalized(content, find)
    ensures Block(Lines(content), r) != ""
  {
    hide Lines, Normalize, NormalizedRanges, Block;
    var lines, wanted, size := Lines(content), Normalize(find), |Lines(find)|;
    CollapseBlank("");
    NormalizedExactly(lines, wanted, 1, |lines|, r);
    if 1 < size <= |lines| {
      NormalizedExactly(lines, wanted, size, |lines| - size + 1, r);
    }
  }
}
