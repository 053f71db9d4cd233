/**
 * Where a fuzzy edit writes. The located block is handed on as text, and that text is searched in the
 * whole file, so the places that are replaced need not be the blocks that were found.
 */
module FuzzyPlaces {
  import opened Text
  import opened Matchers
  import opened EditTool

  // ---------------------------------------------------------------------------- the replaced places

  /** Offsets of the leftmost non-overlapping occurrences in the text that starts at offset `from`. */
  function PlacesFrom(s: string, t: string, from: nat): seq<nat>
    requires t != ""
    decreases |s|
  {
    var i := IndexOf(s, t);
    if i < 0 then [] else [from + i] + PlacesFrom(s[i + |t|..], t, from + i + |t|)
  }

  function Places(s: string, t: string): seq<nat>
    requires t != ""
  {
    PlacesFrom(s, t, 0)
  }

  /** The text from offset `from` on, with `n` characters at each place overwritten by `w`. */
  function Overwrite(s: string, places: seq<nat>, n: nat, w: string, from: nat): string {
    if places == [] then if from <= |s| then s[from..] else ""
    else if from <= places[0] <= |s| then s[from..places[0]] + w + Overwrite(s, places[1..], n, w, places[0] + n)
    else ""
  }

  lemma PlacesStep(s: string, t: string, from: nat)
    requires t != ""
    ensures var i := IndexOf(s, t);
      PlacesFrom(s, t, from) == if i < 0 then [] else [from + i] + PlacesFrom(s[i + |t|..], t, from + i + |t|)
  {
    hide IndexOf;
  }

  lemma {:induction false} PlacesCount(s: string, t: string, from: nat)
    requires t != ""
    ensures |PlacesFrom(s, t, from)| == Count(s, t)
    decreases |s|
  {
    hide PlacesFrom, IndexOf, Split;
    PlacesStep(s, t, from);
    SplitStep(s, t);
    var i := IndexOf(s, t);
    if i >= 0 {
      FitsAt(s, t, i);
      PlacesCount(s[i + |t|..], t, from + i + |t|);
    }
  }

  /** Every place holds the text. */
  lemma {:induction false} PlacesHold(s: string, t: string, from: nat, p: nat)
    requires t != "" && p in PlacesFrom(s, t, from)
    ensures At(s, t, p - from)
    decreases |s|
  {
    hide PlacesFrom, IndexOf, At;
    PlacesStep(s, t, from);
    var i := IndexOf(s, t);
    FitsAt(s, t, i);
    if p != from + i {
      PlacesHold(s[i + |t|..], t, from + i + |t|, p);
      RestHolds(s, t, i + |t|, p - (from + i + |t|));
    }
  }

  lemma FitsAt(s: string, t: string, i: int)
    requires At(s, t, i)
    ensures 0 <= i && i + |t| <= |s|
  {}

  lemma RestHolds(s: string, t: string, n: nat, i: int)
    requires n <= |s| && At(s[n..], t, i)
    ensures At(s, t, n + i)
  {
    SliceOfSlice(s, n, |s|, i, i + |t|);
    assert s[n..|s|] == s[n..];
  }

  /** Splitting and joining overwrites exactly the places. */
  lemma {:induction false} JoinOverwrites(s: string, t: string, w: string, from: nat)
    requires t != "" && from <= |s|
    ensures Join(Split(s[from..], t), w) == Overwrite(s, PlacesFrom(s[from..], t, from), |t|, w, from)
    decreases |s| - from
  {
    hide PlacesFrom, IndexOf, Split, Join, Overwrite;
    var rest := s[from..];
    PlacesStep(rest, t, from);
    SplitStep(rest, t);
    var i := IndexOf(rest, t);
    if i < 0 {
      JoinOne(rest, w);
      OverwriteEnd(s, |t|, w, from);
    } else {
      var p := from + i;
      JoinOverwrites(s, t, w, p + |t|);
      FitsAt(rest, t, i);
      CutTwice(s, from, i);
      CutTwice(s, from, i + |t|);
      JoinCons(rest[..i], Split(rest[i + |t|..], t), w);
      OverwriteStep(s, p, PlacesFrom(s[p + |t|..], t, p + |t|), |t|, w, from);
    }
  }

  lemma CutTwice(s: string, from: nat, i: nat)
    requires from + i <= |s|
    ensures s[from..][..i] == s[from..from + i] && s[from..][i..] == s[from + i..]
  {}

  lemma OverwriteEnd(s: string, n: nat, w: string, from: nat)
    requires from <= |s|
    ensures Overwrite(s, [], n, w, from) == s[from..]
  {}

  lemma OverwriteStep(s: string, p: nat, places: seq<nat>, n: nat, w: string, from: nat)
    requires from <= p <= |s|
    ensures Overwrite(s, [p] + places, n, w, from) == s[from..p] + w + Overwrite(s, places, n, w, p + n)
  {
    assert ([p] + places)[1..] == places;
  }

  /** A successful replacement overwrites its places and nothing else. */
  lemma ReplacesPlaces(content: string, target: string, newString: string, replaceAll: bool)
    requires target != "" && Occurs(content, target)
    ensures var r := ReplaceSpan(content, target, newString, replaceAll);
      var places := Places(content, target);
      r.Done? ==> r.next == Overwrite(content, places, |target|, newString, 0) && r.count == |places|
  {
    CountZero(content, target);
    JoinOverwrites(content, target, newString, 0);
    assert content[0..] == content;
    PlacesCount(content, target, 0);
    hide Occurs, IndexOf, Overwrite, PlacesFrom, Split, Join;
    if Count(content, target) == 1 { OneSplit(content, target, newString); }
  }

  // ------------------------------------------------------------------------------ whole lines

  /** `n` characters at `p` are whole lines of the text. */
  predicate WholeLines(content: string, p: nat, n: nat) {
    && p + n <= |content|
    && (p == 0 || content[p - 1] == '\n')
    && (p + n == |content| || content[p + n] == '\n')
  }

  /** A block starts where its first line starts and is whole lines. */
  lemma BlockIsWhole(content: string, r: Range)
    requires InFile(Lines(content), r)
    ensures var lines := Lines(content);
      WholeLines(content, LineStart(lines, r.first), |Block(lines, r)|)
  {
    hide Lines, LineStart, Block, Join;
    var lines := Lines(content);
    CutIsBlock(content, lines, r);
    LinesJoin(content);
    var a, b := LineStart(lines, r.first), LineStart(lines, r.last) + |lines[r.last]|;
    assert |content[a..b]| == b - a;
    if r.first > 0 { BreakBefore(lines, r.first); } else { FirstStart(lines); }
    if r.last + 1 < |lines| {
      BreakBefore(lines, r.last + 1);
      NextStart(lines, r.last);
      assert content[b] == '\n';
    } else {
      BackLines(lines, r.last);
      LastLine(lines);
      assert b == |content|;
    }
  }

  lemma FirstStart(lines: seq<string>)
    ensures LineStart(lines, 0) == 0
  {}

  lemma LinesJoin(content: string)
    ensures Join(Lines(content), "\n") == content
  {
    JoinSplit(content, "\n");
  }

  lemma NextStart(lines: seq<string>, k: nat)
    requires k < |lines|
    ensures LineStart(lines, k + 1) == LineStart(lines, k) + |lines[k]| + 1
  {}

  lemma LastLine(lines: seq<string>)
    requires lines != []
    ensures Join(lines[|lines| - 1..], "\n") == lines[|lines| - 1]
  {
    assert lines[|lines| - 1..] == [lines[|lines| - 1]];
  }

  /** In front of every line but the first stands a line break. */
  lemma BreakBefore(lines: seq<string>, k: nat)
    requires 0 < k < |lines|
    ensures var s := Join(lines, "\n"); 0 < LineStart(lines, k) <= |s| && s[LineStart(lines, k) - 1] == '\n'
  {
    hide Join, LineStart;
    var front, back := lines[..k], lines[k..];
    assert lines == front + back;
    JoinConcat(front, back);
    BackLines(lines, k);
    var s := Join(lines, "\n");
    assert |s| - LineStart(lines, k) == |Join(back, "\n")|;
    assert s == Join(front, "\n") + "\n" + Join(back, "\n");
  }

  /** Whole lines are a block, made of the lines of their text. */
  lemma WholeIsBlock(content: string, p: nat, n: nat) returns (q: Range)
    requires WholeLines(content, p, n)
    ensures var lines := Lines(content);
      InFile(lines, q) && LineStart(lines, q.first) == p && lines[q.first..q.last + 1] == Lines(content[p..p + n])
  {
    var t := content[p..p + n];
    var front := if p == 0 then [] else Lines(content[..p - 1]);
    var back := if p + n == |content| then [] else Lines(content[p + n + 1..]);
    var lines := Lines(content);
    assert lines == front + Lines(t) + back by { CutLines(content, p, n); }
    hide Lines, LineStart;
    q := Range(|front|, |front| + |Lines(t)| - 1);
    assert lines[q.first..q.last + 1] == Lines(t);
    StartOf(content, p, q.first);
  }

  /** The lines of the parts, one after the other. */
  lemma CutLines(content: string, p: nat, n: nat)
    requires WholeLines(content, p, n)
    ensures Lines(content) ==
      (if p == 0 then [] else Lines(content[..p - 1])) + Lines(content[p..p + n])
      + if p + n == |content| then [] else Lines(content[p + n + 1..])
  {
    hide Split;
    var t, tail := content[p..p + n], content[p..];
    if p > 0 {
      assert content == content[..p - 1] + "\n" + tail;
      LinesConcat(content[..p - 1], tail);
    } else {
      assert tail == content;
    }
    if p + n < |content| {
      assert tail == t + "\n" + content[p + n + 1..];
      LinesConcat(t, content[p + n + 1..]);
    } else {
      assert tail == t;
    }
  }

  lemma StartOf(content: string, p: nat, k: nat)
    requires p <= |content| && (p == 0 || content[p - 1] == '\n')
    requires k == if p == 0 then 0 else |Lines(content[..p - 1])|
    ensures k < |Lines(content)| && LineStart(Lines(content), k) == p
  {
    if p > 0 {
      var front, back := content[..p - 1], content[p..];
      assert content == front + "\n" + back;
      LinesConcat(front, back);
      LinesJoin(content);
      LinesJoin(back);
      hide Split, Join, LineStart;
      var lines := Lines(content);
      BackLines(lines, k);
      assert lines[k..] == Lines(back);
    }
  }

  // --------------------------------------------------------- what is a candidate and what is not

  /** The lines `j` behind the first of two blocks are the same. */
  predicate SameAt(lines: seq<string>, a: nat, b: nat, j: nat) {
    a + j < |lines| && b + j < |lines| && lines[a + j] == lines[b + j]
  }

  lemma {:induction false} SumSame(original: seq<string>, search: seq<string>, a: nat, b: nat, n: nat)
    requires n < |search| && SameAt(original, a, b, n) && forall j: nat :: j <= n ==> SameAt(original, a, b, j)
    ensures SimilaritySum(original, search, a, n) == SimilaritySum(original, search, b, n)
    decreases n
  {
    hide LineSimilarity;
    if n > 0 {
      assert SameAt(original, a, b, n - 1);
      SumSame(original, search, a, b, n - 1);
      SimilaritySame(original, search, a, b, n);
    }
  }

  lemma SimilaritySame(original: seq<string>, search: seq<string>, a: nat, b: nat, n: nat)
    requires n < |search| && SameAt(original, a, b, n)
    ensures LineSimilarity(original, search, a, n) == LineSimilarity(original, search, b, n)
  {
    hide Trim, EditDistance.Dist;
  }

  /** The same lines at another place. */
  ghost predicate SameLines(lines: seq<string>, r: Range, q: Range) {
    InFile(lines, r) && InFile(lines, q) && lines[r.first..r.last + 1] == lines[q.first..q.last + 1]
  }

  lemma SameLinesAt(lines: seq<string>, r: Range, q: Range)
    requires SameLines(lines, r, q)
    ensures q.last - q.first == r.last - r.first && Block(lines, q) == Block(lines, r)
    ensures forall j: nat :: j <= r.last - r.first ==> SameAt(lines, r.first, q.first, j)
  {
    forall j: nat | j <= r.last - r.first ensures SameAt(lines, r.first, q.first, j) {
      assert lines[r.first..r.last + 1][j] == lines[q.first..q.last + 1][j];
    }
  }

  lemma SameAnchored(original: seq<string>, search: seq<string>, r: Range, q: Range)
    requires SameLines(original, r, q) && |search| > 0 && Anchored(original, search, r)
    ensures Anchored(original, search, q)
  {
    SameEnds(original, r, q);
    SameMiddle(original, search, r, q);
    hide Trim, SameLines, MiddleSimilarity, MaxLineDelta;
  }

  lemma SameEnds(lines: seq<string>, r: Range, q: Range)
    requires SameLines(lines, r, q)
    ensures q.last - q.first == r.last - r.first
    ensures lines[q.first] == lines[r.first] && lines[q.last] == lines[r.last]
  {
    SameLinesAt(lines, r, q);
    hide Block;
    assert SameAt(lines, r.first, q.first, r.last - r.first) && SameAt(lines, r.first, q.first, 0);
  }

  lemma SameMiddle(original: seq<string>, search: seq<string>, r: Range, q: Range)
    requires SameLines(original, r, q)
    ensures MiddleSimilarity(original, search, q) == MiddleSimilarity(original, search, r)
  {
    SameLinesAt(original, r, q);
    hide SimilaritySum, Block;
    var n := InteriorLines(search, r);
    if n > 0 {
      assert SameAt(original, r.first, q.first, n);
      SumSame(original, search, r.first, q.first, n);
    }
  }

  /** No matcher tells one block from another with the same lines. */
  lemma SameLinesFound(content: string, find: string, r: Range, q: Range)
    requires r in Candidates(content, find) && SameLines(Lines(content), r, q)
    ensures q in Candidates(content, find)
  {
    hide LineTrimmed, BlockAnchored, WhitespaceNormalized, Lines, SameLines;
    if r in LineTrimmed(content, find) { SameTrimmedFound(content, find, r, q); }
    if r in BlockAnchored(content, find) { SameAnchoredFound(content, find, r, q); }
    if r in WhitespaceNormalized(content, find) { SameNormalizedFound(content, find, r, q); }
  }

  lemma SameTrimmedFound(content: string, find: string, r: Range, q: Range)
    requires r in LineTrimmed(content, find) && SameLines(Lines(content), r, q)
    ensures q in LineTrimmed(content, find)
  {
    hide LineTrimmed, Lines, TrimTrailingEmpty, Trim;
    LineTrimmedExactly(content, find, r);
    LineTrimmedExactly(content, find, q);
    SameLinesAt(Lines(content), r, q);
    var original, search := Lines(content), TrimTrailingEmpty(Lines(find));
    forall j | 0 <= j < |search| ensures Trim(original[q.first + j]) == Trim(search[j]) {
      assert Trim(original[r.first + j]) == Trim(search[j]);
      assert SameAt(original, r.first, q.first, j);
    }
  }

  lemma SameAnchoredFound(content: string, find: string, r: Range, q: Range)
    requires r in BlockAnchored(content, find) && SameLines(Lines(content), r, q)
    ensures q in BlockAnchored(content, find)
  {
    hide BlockAnchored, Lines, TrimTrailingEmpty, Anchored;
    BlockAnchoredExactly(content, find, r);
    BlockAnchoredExactly(content, find, q);
    SameAnchored(Lines(content), TrimTrailingEmpty(Lines(find)), r, q);
  }

  lemma SameNormalizedFound(content: string, find: string, r: Range, q: Range)
    requires r in WhitespaceNormalized(content, find) && SameLines(Lines(content), r, q)
    ensures q in WhitespaceNormalized(content, find)
  {
    hide Lines, Normalize, NormalizedRanges, Block;
    var lines, wanted, size := Lines(content), Normalize(find), |Lines(find)|;
    SameLinesAt(lines, r, q);
    hide SameLines;
    NormalizedExactly(lines, wanted, 1, |lines|, r);
    NormalizedExactly(lines, wanted, 1, |lines|, q);
    if 1 < size <= |lines| {
      NormalizedExactly(lines, wanted, size, |lines| - size + 1, r);
      NormalizedExactly(lines, wanted, size, |lines| - size + 1, q);
    }
  }

  // ---------------------------------------------------------------------------------- the theorem

  /** The matchers reported a block that starts at `p`. */
  ghost predicate Reported(content: string, find: string, p: nat) {
    exists r :: r in Candidates(content, find) && LineStart(Lines(content), r.first) == p
  }

  /** Of the places where a candidate's text stands, the reported ones are those of whole lines. */
  lemma ReportedIffWhole(content: string, find: string, target: string, p: nat)
    requires Candidates(content, find) != [] && At(content, target, p)
    requires forall r :: r in Candidates(content, find) ==> Block(Lines(content), r) == target
    ensures Reported(content, find, p) <==> WholeLines(content, p, |target|)
  {
    hide Candidates, Lines, LineStart, Block, WholeLines;
    var lines := Lines(content);
    if r :| r in Candidates(content, find) && LineStart(lines, r.first) == p {
      BlockIsWhole(content, r);
    }
    if WholeLines(content, p, |target|) {
      var q := WholeIsBlock(content, p, |target|);
      assert content[p..p + |target|] == target;
      var r := Candidates(content, find)[0];
      assert r in Candidates(content, find);
      BlockLines(content, r);
      assert SameLines(lines, r, q);
      SameLinesFound(content, find, r, q);
    }
  }

  lemma BlockLines(content: string, r: Range)
    requires InFile(Lines(content), r)
    ensures Lines(content)[r.first..r.last + 1] == Lines(Block(Lines(content), r))
  {
    var lines := Lines(content);
    LinesHoldNoNewline(content);
    hide Split, Join;
    SplitJoin(lines[r.first..r.last + 1], '\n');
  }

  /**
   * A fuzzy edit that succeeds writes at the leftmost occurrences of the located text and nowhere else.
   * It touches only blocks that the matchers reported if and only if each of these is whole lines.
   */
  lemma OnlyReportedIff(content: string, edit: Edit, target: string)
    requires !Occurs(content, edit.oldString) && ApplyEdit(content, edit).Done? && Located(content, edit, target)
    ensures target != "" && var places, r := Places(content, target), ApplyEdit(content, edit);
      && r == Done(Overwrite(content, places, |target|, edit.newString, 0), |places|)
      && ((forall p :: p in places ==> Reported(content, edit.oldString, p)) <==>
          (forall p :: p in places ==> WholeLines(content, p, |target|)))
  {
    hide Candidates, Lines, Block, Overwrite, PlacesFrom, WholeLines, Reported;
    hide IsDisproportionate, Trim, ReplaceSpan, Occurs, Count;
    FuzzyApplies(content, edit);
    var ranges := Candidates(content, edit.oldString);
    assert ranges[0] in ranges;
    assert target == Block(Lines(content), ranges[0]);
    FuzzyTarget(content, edit.oldString, ranges[0]);
    ReplacesPlaces(content, target, edit.newString, edit.replaceAll);
    forall p | p in Places(content, target)
      ensures Reported(content, edit.oldString, p) <==> WholeLines(content, p, |target|)
    {
      PlacesHold(content, target, 0, p);
      ReportedIffWhole(content, edit.oldString, target, p);
    }
  }

  lemma FuzzyApplies(content: string, edit: Edit)
    requires !Occurs(content, edit.oldString) && ApplyEdit(content, edit).Done?
    ensures ApplyEdit(content, edit) == FuzzyEdit(content, edit) && edit.oldString != ""
  {
    if edit.oldString != "" { CountZero(content, edit.oldString); }
    hide FuzzyEdit, ReplaceSpan;
  }

  // -------------------------------------------------------------------------- two edits that miss

  /** An edit located by the lines of one block, up to outer white space. */
  lemma LocatedByTrim(content: string, edit: Edit, r: Range)
    requires !Occurs(content, edit.oldString) && edit.oldString != edit.newString && !Blank(edit.oldString)
    requires LineTrimmed(content, edit.oldString) == [r]
    requires InFile(Lines(content), r) && !IsDisproportionate(Block(Lines(content), r), edit.oldString)
    ensures var target := Block(Lines(content), r);
      && target != "" && Occurs(content, target)
      && ApplyEdit(content, edit) == ReplaceSpan(content, target, edit.newString, edit.replaceAll)
  {
    hide Lines, LineTrimmed, Candidates, Block, Trim, Occurs, Blank, IsDisproportionate, ReplaceSpan, Count, FuzzyEdit;
    TrimBlank(edit.oldString);
    assert edit.oldString != "" by { NothingBlank(); }
    CountZero(content, edit.oldString);
    CandidatesByTrim(content, edit.oldString, r);
    assert r in Candidates(content, edit.oldString);
    FuzzyTarget(content, edit.oldString, r);
    FuzzyFound(content, edit, r);
  }

  lemma NothingBlank()
    ensures Blank("")
  {}

  lemma FuzzyFound(content: string, edit: Edit, r: Range)
    requires Candidates(content, edit.oldString) == [r] && Trim(edit.oldString) != ""
    requires InFile(Lines(content), r) && !IsDisproportionate(Block(Lines(content), r), edit.oldString)
    ensures var target := Block(Lines(content), r);
      && target != "" && Occurs(content, target)
      && FuzzyEdit(content, edit) == ReplaceSpan(content, target, edit.newString, edit.replaceAll)
  {
    hide Lines, Candidates, Block, Trim, Occurs, IsDisproportionate, ReplaceSpan;
    assert r in Candidates(content, edit.oldString);
    FuzzyTarget(content, edit.oldString, r);
  }

  lemma TwoLines(a: string, b: string)
    requires '\n' !in a && '\n' !in b
    ensures Lines(a + "\n" + b) == [a] + [b]
  {
    LinesConcat(a, b);
    OneLine(a);
    OneLine(b);
    hide Split;
  }

  lemma OneLine(a: string)
    requires '\n' !in a
    ensures Lines(a) == [a]
  {
    NoChar(a, '\n');
    CountZero(a, "\n");
  }

  /** A space around a word does not matter. */
  lemma SpaceAround(a: string)
    requires a != "" && !IsSpace(a[0]) && !IsSpace(a[|a| - 1])
    ensures Trim(a) == a && Trim(a + " ") == a && Trim(" " + a) == a && !Blank(a + " ") && !Blank(" " + a)
  {
    hide IsSpace, TrimStart, TrimEnd, Blank;
    SpaceIsSpace();
    TrimStartSame(a);
    TrimEndSame(a);
    TrimStartSame(a + " ");
    SpaceBehind(a);
    SpaceBefore(a);
    TrimBlank(a + " ");
    TrimBlank(" " + a);
  }

  lemma SmallIsProportionate(matched: string, oldString: string)
    requires |Lines(matched)| == |Lines(oldString)| <= 2 && |matched| < 500
    ensures !IsDisproportionate(matched, oldString)
  {
    hide Lines, Trim;
  }

  /**
   * With `replaceAll` an edit that found one whole line also writes inside another line, which it
   * never reported.
   */
  lemma AllCanTouchMore(a: string, b: string)
    requires a == "foo" && b == "foobar"
    ensures Candidates(a + "\n" + b, a + " ") == [Range(0, 0)]
    ensures ApplyEdit(a + "\n" + b, Edit(a + " ", "x", true)) == Done("x\nxbar", 2)
  {
    hide *;
    var content, find, r := a + "\n" + b, a + " ", Range(0, 0);
    FooLetters(a, b);
    FooText(content, find, a);
    SpaceAround(a);
    SpaceAround(b);
    TwoLines(a, b);
    OneLine(find);
    OneLine(a);
    OneOfTwo(content, find, a, b);
    CandidatesByTrim(content, find, r);
    FirstBlock(Lines(content), a, b);
    SmallIsProportionate(a, find);
    LocatedByTrim(content, Edit(find, "x", true), r);
    AllOf(content, a, "x", "x\nxbar");
  }

  lemma FooLetters(a: string, b: string)
    requires a == "foo" && b == "foobar"
    ensures !IsSpace(a[0]) && !IsSpace(a[|a| - 1]) && !IsSpace(b[0]) && !IsSpace(b[|b| - 1])
    ensures '\n' !in a && '\n' !in b && '\n' !in a + " " && a != b && |a| < 500 && a + " " != "x"
  {}

  lemma FooText(content: string, find: string, t: string)
    requires content == "foo\nfoobar" && find == "foo " && t == "foo"
    ensures !Occurs(content, find) && Occurs(content, t)
    ensures Count(content, t) == 2 && Join(Split(content, t), "x") == "x\nxbar"
  {
    var tail, bar := content[3..], content[7..];
    assert tail == "\nfoobar" && bar == "bar" && tail[4..] == bar && content[0..3] == t && tail[1..4] == t;
    assert tail[..1] == "\n" && "" + "x" + ("\n" + "x" + bar) == "x\nxbar";
    hide *;
    NoSpaceNoFind(content, find);
    StandsAt(content, t, 0);
    StandsAt(tail, t, 1);
    DiffersAt(tail, t);
    DiffersAt(bar, t);
    IsThere(content, t, 0);
    SplitTwice(content, t, tail, bar);
    CountIs(content, t);
    JoinThree("", "\n", bar, "x");
  }

  lemma CountIs(s: string, t: string)
    requires t != ""
    ensures Count(s, t) == |Split(s, t)| - 1
  {}

  lemma SplitTwice(s: string, t: string, tail: string, end: string)
    requires t != "" && At(s, t, 0) && |s| > 2 * |t| && tail == s[|t|..]
    requires !At(tail, t, 0) && At(tail, t, 1) && 1 + |t| <= |tail| && end == tail[1 + |t|..]
    requires |end| == |t| && !At(end, t, 0)
    ensures Split(s, t) == [""] + ([tail[..1]] + [end])
  {
    hide At, IndexOf, Split;
    FirstIs(s, t, 0);
    FirstIs(tail, t, 1);
    TooFar(end, t);
    SplitStep(s, t);
    SplitStep(tail, t);
    SplitStep(end, t);
    assert s[..0] == "";
  }

  lemma StandsAt(s: string, t: string, i: nat)
    requires i + |t| <= |s| && s[i..i + |t|] == t
    ensures At(s, t, i)
  {}

  lemma DiffersAt(s: string, t: string)
    requires s != "" && t != "" && s[0] != t[0]
    ensures !At(s, t, 0)
  {
    assert |t| <= |s| ==> s[0..|t|][0] == s[0];
  }

  lemma TooFar(s: string, t: string)
    requires |s| == |t| && !At(s, t, 0)
    ensures IndexOf(s, t) < 0
  {
    hide IndexOf;
    FitsOnce(s, t);
    hide At;
  }

  lemma FitsOnce(s: string, t: string)
    requires |s| == |t|
    ensures forall i :: At(s, t, i) ==> i == 0
  {}

  lemma JoinThree(a: string, b: string, c: string, sep: string)
    ensures Join([a] + ([b] + [c]), sep) == a + sep + (b + sep + c)
  {
    hide Join;
    JoinOne(c, sep);
    JoinCons(b, [c], sep);
    JoinCons(a, [b] + [c], sep);
  }

  lemma NoSpaceNoFind(content: string, find: string)
    requires content == "foo\nfoobar" && find == "foo "
    ensures !Occurs(content, find)
  {
    forall i ensures !At(content, find, i) {
      assert 0 <= i && i + |find| <= |content| ==> content[i..i + |find|][3] == content[i + 3];
    }
  }

  lemma CandidatesByTrim(content: string, find: string, r: Range)
    requires LineTrimmed(content, find) == [r]
    ensures Candidates(content, find) == [r]
  {
    hide LineTrimmed, BlockAnchored, WhitespaceNormalized;
  }

  lemma OneOfTwo(content: string, find: string, a: string, b: string)
    requires Lines(content) == [a] + [b] && Lines(find) == [find] && find != ""
    requires Trim(find) == Trim(a) == a && Trim(b) == b && a != b
    ensures LineTrimmed(content, find) == [Range(0, 0)]
  {
    hide Trim, Lines, TrimmedRanges;
    var original, search := Lines(content), [find];
    assert TrimTrailingEmpty(Lines(find)) == search;
    assert SameTrimmed(original, search, 0, 1);
    assert Trim(original[1 + 0]) != Trim(search[0]) && !SameTrimmed(original, search, 1, 1);
    hide SameTrimmed;
    RangesStep(original, search, 1);
    RangesStep(original, search, 2);
    RangesNone(original, search);
  }

  lemma RangesStep(original: seq<string>, search: seq<string>, n: nat)
    requires 0 < |search| && 0 < n && n + |search| <= |original| + 1
    ensures TrimmedRanges(original, search, n) == TrimmedRanges(original, search, n - 1)
      + if SameTrimmed(original, search, n - 1, |search|) then [Range(n - 1, n + |search| - 2)] else []
  {
    hide SameTrimmed;
  }

  lemma RangesNone(original: seq<string>, search: seq<string>)
    requires 0 < |search| <= |original| + 1
    ensures TrimmedRanges(original, search, 0) == []
  {}

  lemma FirstBlock(lines: seq<string>, a: string, b: string)
    requires lines == [a] + [b]
    ensures InFile(lines, Range(0, 0)) && Block(lines, Range(0, 0)) == a
  {
    hide Join;
    assert lines[0..1] == [a];
    JoinOne(a, "\n");
  }

  lemma AllOf(content: string, target: string, newString: string, next: string)
    requires target != "" && Occurs(content, target)
    requires Count(content, target) == 2 && Join(Split(content, target), newString) == next
    ensures ReplaceSpan(content, target, newString, true) == Done(next, 2)
  {
    hide Occurs, Split, Join;
  }

  /**
   * A single fuzzy edit can miss the only block it found: the block's text begins earlier, inside the
   * line in front.
   */
  lemma SingleCanMiss(a: string, b: string, find: string)
    requires a == "a" && b == "ba" && find == " a\n a"
    ensures Candidates(b + "\n" + (a + "\n" + a), find) == [Range(1, 2)]
    ensures LineStart(Lines(b + "\n" + (a + "\n" + a)), 1) == 3
    ensures ApplyEdit(b + "\n" + (a + "\n" + a), Edit(find, "x", false)) == Done("bx\na", 1)
  {
    hide *;
    var target, s, r := a + "\n" + a, " " + a, Range(1, 2);
    var content := b + "\n" + target;
    MissLetters(a, b, find);
    MissText(content, find, target);
    SpaceAround(a);
    SpaceAround(b);
    TwoLines(a, a);
    TwoLines(s, s);
    TwoLinesBehind(b, target);
    SecondOfTwo(content, find, a, b, s);
    CandidatesByTrim(content, find, r);
    MissBlock(Lines(content), a, b);
    SmallIsProportionate(target, find);
    LocatedByTrim(content, Edit(find, "x", false), r);
    SpanResult(content, target, "x");
  }

  lemma MissLetters(a: string, b: string, find: string)
    requires a == "a" && b == "ba" && find == " a\n a"
    ensures !IsSpace(a[0]) && !IsSpace(a[|a| - 1]) && !IsSpace(b[0]) && !IsSpace(b[|b| - 1]) && a != b && |b| == 2
    ensures '\n' !in a && '\n' !in b && '\n' !in " " + a && find == " " + a + "\n" + (" " + a) && find != "x"
    ensures " " + a != "" && !Blank(find)
  {
    assert find[1] in find && !IsSpace(find[1]);
  }

  lemma TwoLinesBehind(b: string, t: string)
    requires '\n' !in b
    ensures Lines(b + "\n" + t) == [b] + Lines(t)
  {
    LinesConcat(b, t);
    OneLine(b);
    hide Split;
  }

  lemma MissText(content: string, find: string, target: string)
    requires content == "ba\na\na" && find == " a\n a" && target == "a\na"
    ensures !Occurs(content, find) && Occurs(content, target)
    ensures Count(content, target) == 1 && IndexOf(content, target) == 1
    ensures |target| < 500 && content[..1] + "x" + content[1 + |target|..] == "bx\na"
  {
    forall i ensures !At(content, find, i) {
      assert 0 <= i && i + |find| <= |content| ==> content[i..i + |find|][0] == content[i];
    }
    assert content[1..4] == target;
    hide At, Count, IndexOf, Occurs;
    assert !Occurs(content, find) by { NotThere(content, find); }
    OnceAt(content, target, 1);
  }

  lemma NotThere(s: string, t: string)
    requires forall i :: !At(s, t, i)
    ensures !Occurs(s, t)
  {}

  lemma SecondOfTwo(content: string, find: string, a: string, b: string, s: string)
    requires Lines(content) == [b] + ([a] + [a]) && Lines(find) == [s] + [s] && s != ""
    requires Trim(s) == Trim(a) == a && Trim(b) == b && a != b
    ensures LineTrimmed(content, find) == [Range(1, 2)]
  {
    hide Trim, Lines, TrimmedRanges;
    var original, search := Lines(content), Lines(find);
    assert TrimTrailingEmpty(search) == search;
    assert Trim(original[0 + 0]) != Trim(search[0]) && !SameTrimmed(original, search, 0, 2);
    assert SameTrimmed(original, search, 1, 2);
    hide SameTrimmed;
    RangesStep(original, search, 1);
    RangesStep(original, search, 2);
    RangesNone(original, search);
  }

  lemma MissBlock(lines: seq<string>, a: string, b: string)
    requires lines == [b] + ([a] + [a]) && |b| == 2
    ensures InFile(lines, Range(1, 2)) && Block(lines, Range(1, 2)) == a + "\n" + a && LineStart(lines, 1) == 3
  {
    hide Join;
    assert lines[1..3] == [a] + [a];
    JoinCons(a, [a], "\n");
    JoinOne(a, "\n");
    assert LineStart(lines, 0) == 0;
  }
}
