/** String-replacement edits of one file: exact first, fuzzy on a miss, both under one uniqueness rule. */
module EditTool {
  import opened Text
  import opened Matchers

  datatype Edit = Edit(oldString: string, newString: string, replaceAll: bool)

  datatype EditError =
    | EmptyOldString
    | NoChange
    | NotFound
    | TooLarge
    | NotUnique(matches: nat)
    | MixedFormats(matches: nat)
    | AtEdit(index: nat, cause: EditError)

  datatype Result = Done(next: string, count: nat) | Refused(error: EditError)

  /** Lines of the match against lines of what was asked for, then their trimmed lengths. */
  predicate IsDisproportionate(matched: string, oldString: string) {
    var oldLines, matchedLines := |Lines(oldString)|, |Lines(matched)|;
    var oldLen := |Trim(oldString)|;
    matchedLines >= (if oldLines + 3 >= oldLines * 2 then oldLines + 3 else oldLines * 2)
    || (oldLines != 1 && |Trim(matched)| > if oldLen + 500 >= oldLen * 4 then oldLen + 500 else oldLen * 4)
  }

  function ReplaceSpan(content: string, target: string, newString: string, replaceAll: bool): Result
    requires target != "" && Occurs(content, target)
  {
    var occurrences := Count(content, target);
    if occurrences > 1 && !replaceAll then Refused(NotUnique(occurrences))
    else if replaceAll then Done(Join(Split(content, target), newString), occurrences)
    else
      var at := IndexOf(content, target);
      assert At(content, target, at);
      Done(content[..at] + newString + content[at + |target|..], 1)
  }

  function ApplyEdit(content: string, edit: Edit): Result {
    if edit.oldString == "" then Refused(EmptyOldString)
    else if edit.oldString == edit.newString then Refused(NoChange)
    else if Count(content, edit.oldString) >= 1 then
      CountZero(content, edit.oldString);
      ReplaceSpan(content, edit.oldString, edit.newString, edit.replaceAll)
    else FuzzyEdit(content, edit)
  }

  function FuzzyEdit(content: string, edit: Edit): Result {
    hide Lines, Candidates, Block, Trim, ReplaceSpan;
    var lines := Lines(content);
    var ranges := Candidates(content, edit.oldString);
    if Trim(edit.oldString) == "" || ranges == [] then Refused(NotFound)
    else if exists r :: r in ranges && IsDisproportionate(Block(lines, r), edit.oldString) then Refused(TooLarge)
    else if |ranges| > 1 && !edit.replaceAll then Refused(NotUnique(|ranges|))
    else if exists r :: r in ranges && Block(lines, r) != Block(lines, ranges[0]) then Refused(MixedFormats(|ranges|))
    else
      FuzzyTarget(content, edit.oldString, ranges[0]);
      ReplaceSpan(content, Block(lines, ranges[0]), edit.newString, edit.replaceAll)
  }

  /** A candidate is non-empty text that really is in the file. */
  lemma FuzzyTarget(content: string, find: string, r: Range)
    requires r in Candidates(content, find) && Trim(find) != ""
    ensures Block(Lines(content), r) != "" && Occurs(content, Block(Lines(content), r))
  {
    hide Lines, Candidates, Block, Trim, Occurs;
    TrimBlank(find);
    CandidateNotEmpty(content, find, r);
    BlockOccurs(content, r);
  }

  lemma BlockOccurs(content: string, r: Range)
    requires InFile(Lines(content), r)
    ensures Occurs(content, Block(Lines(content), r))
  {
    hide Lines, Block, LineStart;
    var lines := Lines(content);
    CutIsBlock(content, lines, r);
    assert At(content, Block(lines, r), LineStart(lines, r.first));
  }

  // ------------------------------------------------------------------- what a successful edit does

  /**
   * The edit wrote `next` by replacing the text `target`: its single occurrence, or with `replaceAll`
   * every leftmost non-overlapping one. The pieces between the replaced texts are kept as they were:
   * each target stands at its first place behind the one before, none is left over, and `count` says
   * how many there are.
   */
  ghost predicate Replaced(content: string, target: string, edit: Edit, next: string, count: nat) {
    && target != "" && Occurs(content, target) && count == Count(content, target)
    && (!edit.replaceAll ==> count == 1)
    && exists kept: seq<string> :: Keeps(kept, content, target, edit.newString, next, count)
  }

  ghost predicate Keeps(
      kept: seq<string>, content: string, target: string, newString: string, next: string, count: nat) {
    && |kept| == count + 1
    && Join(kept, target) == content && Join(kept, newString) == next
    && Leftmost(kept, target) && forall p :: p in kept ==> !Occurs(p, target)
  }

  /** Content, target and edit leave no choice: there is one text and one count. */
  lemma ReplacedOneWay(
      content: string, target: string, edit: Edit, next: string, count: nat, next': string, count': nat)
    requires Replaced(content, target, edit, next, count) && Replaced(content, target, edit, next', count')
    ensures next' == next && count' == count
  {
    hide Occurs, Count, Join, Leftmost;
    var kept :| Keeps(kept, content, target, edit.newString, next, count);
    var kept' :| Keeps(kept', content, target, edit.newString, next', count');
    assert kept[count] in kept && kept'[count] in kept';
    LeftmostIsSplit(kept, target);
    LeftmostIsSplit(kept', target);
  }

  /** Where the target came from: the requested text itself, or the only fuzzy candidate text. */
  ghost predicate Located(content: string, edit: Edit, target: string) {
    if Occurs(content, edit.oldString) then target == edit.oldString
    else exists r ::
      && r in Candidates(content, edit.oldString) && target == Block(Lines(content), r)
      && !IsDisproportionate(target, edit.oldString)
      && (forall q :: q in Candidates(content, edit.oldString) ==> Block(Lines(content), q) == target)
      && (edit.replaceAll || |Candidates(content, edit.oldString)| == 1)
  }

  lemma ReplaceSpanReplaces(content: string, target: string, edit: Edit)
    requires target != "" && Occurs(content, target)
    ensures var r := ReplaceSpan(content, target, edit.newString, edit.replaceAll);
      && (r.Done? <==> edit.replaceAll || Count(content, target) == 1)
      && (r.Done? ==> Replaced(content, target, edit, r.next, r.count))
  {
    var kept := Split(content, target);
    CountZero(content, target);
    JoinSplit(content, target);
    SplitPiecesFree(content, target);
    SplitLeftmost(content, target);
    if Count(content, target) == 1 {
      OneSplit(content, target, edit.newString);
    }
    hide Split, Join, Occurs, IndexOf, Leftmost;
    var r := ReplaceSpan(content, target, edit.newString, edit.replaceAll);
    assert r.Done? ==> Keeps(kept, content, target, edit.newString, r.next, r.count);
  }

  lemma OneSplit(content: string, target: string, newString: string)
    requires target != "" && Count(content, target) == 1
    ensures var at := IndexOf(content, target);
      At(content, target, at)
      && Join(Split(content, target), newString) == content[..at] + newString + content[at + |target|..]
  {
    hide IndexOf, Occurs;
    var at := IndexOf(content, target);
    var rest := content[at + |target|..];
    assert Split(content, target) == [content[..at]] + Split(rest, target);
    assert |Split(rest, target)| == 1;
    assert Split(rest, target) == [rest];
    assert [content[..at], rest][1..] == [rest];
  }

  /** Every edit that succeeds replaces one located, really occurring text and nothing else. */
  lemma EditReplacesTarget(content: string, edit: Edit) returns (target: string)
    requires ApplyEdit(content, edit).Done?
    ensures Located(content, edit, target)
    ensures Replaced(content, target, edit, ApplyEdit(content, edit).next, ApplyEdit(content, edit).count)
  {
    hide Replaced, Occurs, Count, FuzzyEdit;
    CountZero(content, edit.oldString);
    if Occurs(content, edit.oldString) {
      target := edit.oldString;
      ReplaceSpanReplaces(content, target, edit);
    } else {
      target := FuzzyReplacesTarget(content, edit);
    }
  }

  lemma FuzzyReplacesTarget(content: string, edit: Edit) returns (target: string)
    requires !Occurs(content, edit.oldString) && FuzzyEdit(content, edit).Done?
    ensures Located(content, edit, target)
    ensures Replaced(content, target, edit, FuzzyEdit(content, edit).next, FuzzyEdit(content, edit).count)
  {
    hide Replaced, Lines, Candidates, Block, Trim, Occurs, Count, IsDisproportionate, ReplaceSpan;
    var ranges := Candidates(content, edit.oldString);
    target := Block(Lines(content), ranges[0]);
    FuzzyTarget(content, edit.oldString, ranges[0]);
    ReplaceSpanReplaces(content, target, edit);
    assert ranges[0] in ranges;
  }

  /** An exact request succeeds exactly when it is unambiguous; it is never answered by a fuzzy match. */
  lemma ExactEditSucceedsIff(content: string, edit: Edit)
    requires edit.oldString != "" && edit.oldString != edit.newString && Occurs(content, edit.oldString)
    ensures ApplyEdit(content, edit).Done? <==> edit.replaceAll || Count(content, edit.oldString) == 1
    ensures ApplyEdit(content, edit).Refused? ==>
      ApplyEdit(content, edit).error == NotUnique(Count(content, edit.oldString))
  {
    CountZero(content, edit.oldString);
    hide Occurs, Count, FuzzyEdit;
    ReplaceSpanReplaces(content, edit.oldString, edit);
  }

  /** Three lines more and twice as many, or for several lines over 500 characters more and four times as many. */
  predicate MuchLarger(matched: string, oldString: string) {
    var m, n := |Split(matched, "\n")|, |Split(oldString, "\n")|;
    var x, y := |Trim(matched)|, |Trim(oldString)|;
    (m >= n + 3 && m >= 2 * n) || (n > 1 && x > y + 500 && x > 4 * y)
  }

  /** The reasons for which a request that is not found exactly is refused, in their order. */
  ghost predicate FuzzyRefusal(content: string, edit: Edit, ranges: seq<Range>, e: EditError) {
    var lines := Lines(content);
    if Blank(edit.oldString) || ranges == [] then e == NotFound
    else if !AllInFile(lines, ranges) then false
    else if exists r :: r in ranges && MuchLarger(Block(lines, r), edit.oldString) then e == TooLarge
    else if !edit.replaceAll && |ranges| > 1 then e == NotUnique(|ranges|)
    else if exists q, r :: q in ranges && r in ranges && Block(lines, q) != Block(lines, r) then
      e == MixedFormats(|ranges|)
    else
      var target := Block(lines, ranges[0]);
      target != "" && !edit.replaceAll && Count(content, target) > 1 && e == NotUnique(Count(content, target))
  }

  /** A request that is not found exactly is refused for one of these reasons, or else carried out. */
  lemma FuzzyRefusedIff(content: string, edit: Edit, e: EditError)
    requires edit.oldString != "" && edit.oldString != edit.newString && !Occurs(content, edit.oldString)
    ensures ApplyEdit(content, edit) == Refused(e) <==>
      FuzzyRefusal(content, edit, Candidates(content, edit.oldString), e)
  {
    hide Lines, Candidates, Block, Trim, Occurs, Count, ReplaceSpan, IsDisproportionate, MuchLarger, Blank;
    var lines, ranges := Lines(content), Candidates(content, edit.oldString);
    CountZero(content, edit.oldString);
    TrimBlank(edit.oldString);
    forall r | r in ranges
      ensures IsDisproportionate(Block(lines, r), edit.oldString) <==> MuchLarger(Block(lines, r), edit.oldString)
    {
      MuchLargerIff(Block(lines, r), edit.oldString);
    }
    if !Blank(edit.oldString) && ranges != [] {
      assert ranges[0] in ranges;
      FuzzyTarget(content, edit.oldString, ranges[0]);
      SpanRefused(content, Block(lines, ranges[0]), edit);
    }
  }

  lemma MuchLargerIff(matched: string, oldString: string)
    ensures IsDisproportionate(matched, oldString) <==> MuchLarger(matched, oldString)
  {
    hide Split, Trim;
  }

  lemma SpanRefused(content: string, target: string, edit: Edit)
    requires target != "" && Occurs(content, target)
    ensures var r := ReplaceSpan(content, target, edit.newString, edit.replaceAll);
      (r.Refused? <==> !edit.replaceAll && Count(content, target) > 1)
      && (r.Refused? ==> r.error == NotUnique(Count(content, target)))
  {
    CountZero(content, target);
    hide Occurs, Count, Split, IndexOf;
  }

  /**
   * Undoing a single replacement: editing the new text back restores the file if and only if the old
   * text was found exactly, and the new text is unique in the result and stands where it was written.
   */
  lemma EditBackRestoresIff(content: string, edit: Edit, next: string)
    requires ApplyEdit(content, edit) == Done(next, 1)
    ensures ApplyEdit(next, Edit(edit.newString, edit.oldString, false)) == Done(content, 1) <==>
      && edit.newString != "" && Occurs(content, edit.oldString)
      && Count(next, edit.newString) == 1 && IndexOf(next, edit.newString) == IndexOf(content, edit.oldString)
  {
    assert edit.oldString != edit.newString;
    hide ApplyEdit, Replaced, Located, IndexOf, Count, At;
    if edit.newString != "" {
      var target := EditReplacesTarget(content, edit);
      NewTextOccurs(content, target, edit, next);
      BackResult(next, edit.newString, edit.oldString);
      if Occurs(content, edit.oldString) {
        ExactNext(content, edit, next);
        SwapBack(content, edit.oldString, edit.newString, IndexOf(content, edit.oldString));
      }
    } else {
      assert ApplyEdit(next, Edit("", edit.oldString, false)).Refused? by { NothingToFind(next, edit.oldString); }
    }
  }

  lemma NothingToFind(content: string, newString: string)
    ensures ApplyEdit(content, Edit("", newString, false)) == Refused(EmptyOldString)
  {}

  lemma NewTextOccurs(content: string, target: string, edit: Edit, next: string)
    requires Replaced(content, target, edit, next, 1)
    ensures Occurs(next, edit.newString)
  {
    var kept :| Keeps(kept, content, target, edit.newString, next, 1);
    hide Occurs, Leftmost, Count;
    var last := kept[1..];
    assert last == [kept[1]] && Join(last, edit.newString) == kept[1];
    assert next == kept[0] + edit.newString + kept[1];
    AtMiddle(kept[0], edit.newString, kept[1]);
    IsThere(next, edit.newString, |kept[0]|);
  }

  lemma IsThere(s: string, p: string, i: int)
    requires At(s, p, i)
    ensures Occurs(s, p)
  {}

  /** Text that occurs is edited exactly. */
  lemma ApplyExact(content: string, edit: Edit)
    requires edit.oldString != "" && edit.oldString != edit.newString && Occurs(content, edit.oldString)
    ensures ApplyEdit(content, edit) == ReplaceSpan(content, edit.oldString, edit.newString, edit.replaceAll)
  {
    CountZero(content, edit.oldString);
    hide FuzzyEdit, ReplaceSpan, Occurs, Count;
  }

  /** Where a single replacement writes. */
  lemma SpanNext(content: string, target: string, newString: string, replaceAll: bool, next: string)
    requires target != "" && Occurs(content, target)
    requires ReplaceSpan(content, target, newString, replaceAll) == Done(next, 1)
    ensures var at := IndexOf(content, target);
      At(content, target, at) && next == content[..at] + newString + content[at + |target|..]
  {
    assert At(content, target, IndexOf(content, target));
    hide Occurs, IndexOf, Split, Join;
    if replaceAll { OneSplit(content, target, newString); }
  }

  lemma ExactNext(content: string, edit: Edit, next: string)
    requires ApplyEdit(content, edit) == Done(next, 1) && Occurs(content, edit.oldString)
    ensures var at := IndexOf(content, edit.oldString);
      At(content, edit.oldString, at) && next == content[..at] + edit.newString + content[at + |edit.oldString|..]
      && At(next, edit.newString, at)
  {
    assert edit.oldString != "" && edit.oldString != edit.newString;
    hide ApplyEdit, ReplaceSpan, Occurs, IndexOf;
    ApplyExact(content, edit);
    SpanNext(content, edit.oldString, edit.newString, edit.replaceAll, next);
    var at := IndexOf(content, edit.oldString);
    AtMiddle(content[..at], edit.newString, content[at + |edit.oldString|..]);
  }

  /** A single exact edit of `a` to `b` succeeds where `a` is unique, and leaves `b` there. */
  lemma BackResult(text: string, a: string, b: string)
    requires a != "" && a != b && Occurs(text, a)
    ensures var at := IndexOf(text, a);
      && At(text, a, at)
      && var next := text[..at] + b + text[at + |a|..];
        && At(next, b, at)
        && ApplyEdit(text, Edit(a, b, false)) ==
           if Count(text, a) == 1 then Done(next, 1) else Refused(NotUnique(Count(text, a)))
  {
    hide ApplyEdit, ReplaceSpan, Occurs, IndexOf, Count;
    ApplyExact(text, Edit(a, b, false));
    SpanResult(text, a, b);
    var at := IndexOf(text, a);
    AtMiddle(text[..at], b, text[at + |a|..]);
  }

  lemma SpanResult(text: string, a: string, b: string)
    requires a != "" && Occurs(text, a)
    ensures var at := IndexOf(text, a);
      && At(text, a, at)
      && ReplaceSpan(text, a, b, false) ==
         if Count(text, a) == 1 then Done(text[..at] + b + text[at + |a|..], 1) else Refused(NotUnique(Count(text, a)))
  {
    CountZero(text, a);
    hide IndexOf, Count, Occurs;
  }

  lemma SwapBack(content: string, a: string, b: string, at: int)
    requires At(content, a, at)
    ensures var next := content[..at] + b + content[at + |a|..];
      next[..at] + a + next[at + |b|..] == content
  {
    var next := content[..at] + b + content[at + |a|..];
    assert next[..at] == content[..at] && next[at + |b|..] == content[at + |a|..];
    assert content[at..at + |a|] == a;
  }

  /** Unique is not enough: the new text can first occur across the start of where it was written. */
  lemma EditBackCanMiss()
    ensures ApplyEdit("ab", Edit("b", "aa", false)) == Done("aaa", 1)
    ensures Count("aaa", "aa") == 1
    ensures ApplyEdit("aaa", Edit("aa", "b", false)) == Done("ba", 1)
  {
    hide *;
    OnceAt("ab", "b", 1);
    BackResult("ab", "b", "aa");
    OnceAt("aaa", "aa", 0);
    BackResult("aaa", "aa", "b");
    assert "ab"[..1] + "aa" + "ab"[2..] == "aaa";
    assert "aaa"[..0] + "b" + "aaa"[2..] == "ba";
  }

  lemma OnceAt(s: string, p: string, n: nat)
    requires p != "" && n + |p| <= |s| && s[n..n + |p|] == p && |s| - n < 2 * |p|
    requires n == 0 || (n == 1 && s[0] != p[0])
    ensures Occurs(s, p) && Count(s, p) == 1 && IndexOf(s, p) == n
  {
    assert At(s, p, n);
    assert n == 1 ==> s[0..|p|][0] == s[0] && !At(s, p, 0);
    hide IndexOf, At;
    FirstIs(s, p, n);
    SplitStep(s, p);
    var rest := s[n + |p|..];
    SplitStep(rest, p);
    TooShort(rest, p);
    hide Split;
    assert Split(rest, p) == [rest];
    assert Split(s, p) == [s[..n]] + [rest];
    assert |Split(s, p)| == 2;
  }

  // ------------------------------------------------------------------------------ several edits at once

  /** Edits one after the other on the text in memory; the first refusal refuses them all. */
  function MultiEdit(content: string, edits: seq<Edit>): Result {
    if edits == [] then Done(content, 0)
    else
      match MultiEdit(content, edits[..|edits| - 1])
      case Refused(e) => Refused(e)
      case Done(text, total) =>
        match ApplyEdit(text, edits[|edits| - 1])
        case Refused(e) => Refused(AtEdit(|edits| - 1, e))
        case Done(next, count) => Done(next, total + count)
  }

  /** Every edit succeeds on the text the one before it left. */
  ghost predicate IsChain(texts: seq<string>, counts: seq<nat>, edits: seq<Edit>) {
    && |texts| == |edits| + 1 && |counts| == |edits|
    && forall i :: 0 <= i < |edits| ==> ApplyEdit(texts[i], edits[i]) == Done(texts[i + 1], counts[i])
  }

  lemma ChainSnoc(texts: seq<string>, counts: seq<nat>, edits: seq<Edit>, text: string, count: nat, edit: Edit)
    requires IsChain(texts, counts, edits) && ApplyEdit(texts[|edits|], edit) == Done(text, count)
    ensures IsChain(texts + [text], counts + [count], edits + [edit])
  {
    hide ApplyEdit;
  }

  /** A successful run is a chain of successful edits, and its count is the sum of theirs. */
  lemma {:induction false} MultiEditChain(content: string, edits: seq<Edit>)
      returns (texts: seq<string>, counts: seq<nat>)
    requires MultiEdit(content, edits).Done?
    ensures IsChain(texts, counts, edits) && texts[0] == content
    ensures MultiEdit(content, edits) == Done(texts[|edits|], Sum(counts))
    decreases |edits|
  {
    hide ApplyEdit;
    if edits == [] {
      texts, counts := [content], [];
    } else {
      var n := |edits| - 1;
      texts, counts := MultiEditChain(content, edits[..n]);
      var r := ApplyEdit(texts[n], edits[n]);
      ChainSnoc(texts, counts, edits[..n], r.next, r.count, edits[n]);
      assert edits[..n] + [edits[n]] == edits;
      hide IsChain;
      assert (counts + [r.count])[..n] == counts;
      texts, counts := texts + [r.next], counts + [r.count];
    }
  }

  function Sum(counts: seq<nat>): nat {
    if counts == [] then 0 else Sum(counts[..|counts| - 1]) + counts[|counts| - 1]
  }

  /** A refusal names the first edit that fails; all edits in front of it succeed. */
  lemma {:induction false} MultiEditFirstFailure(content: string, edits: seq<Edit>)
    requires MultiEdit(content, edits).Refused?
    ensures var e := MultiEdit(content, edits).error;
      && e.AtEdit? && e.index < |edits|
      && MultiEdit(content, edits[..e.index]).Done?
      && ApplyEdit(MultiEdit(content, edits[..e.index]).next, edits[e.index]) == Refused(e.cause)
    decreases |edits|
  {
    hide ApplyEdit;
    var n := |edits| - 1;
    if MultiEdit(content, edits[..n]).Refused? {
      MultiEditFirstFailure(content, edits[..n]);
      var e := MultiEdit(content, edits).error;
      assert edits[..n][..e.index] == edits[..e.index];
    }
  }

  /** One edit, with the matchers run as the program runs them. */
  method RunEdit(content: string, edit: Edit) returns (r: Result)
    ensures r == ApplyEdit(content, edit)
  {
    hide ReplaceSpan, Count, FuzzyEdit;
    if |edit.oldString| == 0 { return Refused(EmptyOldString); }
    if edit.oldString == edit.newString { return Refused(NoChange); }
    if Count(content, edit.oldString) >= 1 {
      CountZero(content, edit.oldString);
      return ReplaceSpan(content, edit.oldString, edit.newString, edit.replaceAll);
    }
    r := RunFuzzyEdit(content, edit);
  }

  method RunFuzzyEdit(content: string, edit: Edit) returns (r: Result)
    requires edit.oldString != ""
    ensures r == FuzzyEdit(content, edit)
  {
    hide Lines, Candidates, Block, Trim, ReplaceSpan, IsDisproportionate;
    if Trim(edit.oldString) == "" { return Refused(NotFound); }
    var spans := FindFuzzyMatch(content, edit.oldString);
    ghost var lines, ranges := Lines(content), Candidates(content, edit.oldString);
    if |spans| == 0 { return Refused(NotFound); }
    var large := SomeDisproportionate(spans, edit.oldString);
    assert large <==> exists r :: r in ranges && IsDisproportionate(Block(lines, r), edit.oldString) by {
      BlocksMembers(lines, ranges);
    }
    if large { return Refused(TooLarge); }
    var same := AllEqual(spans);
    assert same <==> !exists r :: r in ranges && Block(lines, r) != Block(lines, ranges[0]) by {
      BlocksMembers(lines, ranges);
      assert same <== !exists r :: r in ranges && Block(lines, r) != Block(lines, ranges[0]);
      forall r | r in ranges ensures Block(lines, r) in spans {}
    }
    if |spans| > 1 {
      if !edit.replaceAll { return Refused(NotUnique(|spans|)); }
      if !same { return Refused(MixedFormats(|spans|)); }
    }
    assert |spans| == 1 ==> same;
    FuzzyTarget(content, edit.oldString, ranges[0]);
    r := ReplaceSpan(content, spans[0], edit.newString, edit.replaceAll);
  }

  lemma BlocksMembers(lines: seq<string>, ranges: seq<Range>)
    requires AllInFile(lines, ranges)
    ensures forall s :: s in Blocks(lines, ranges) <==> exists r :: r in ranges && Block(lines, r) == s
  {
    hide Block;
    var spans := Blocks(lines, ranges);
    forall s ensures s in spans <==> exists r :: r in ranges && Block(lines, r) == s {
      if s in spans {
        var k :| 0 <= k < |spans| && spans[k] == s;
        assert ranges[k] in ranges;
      }
      if r :| r in ranges && Block(lines, r) == s {
        var k :| 0 <= k < |ranges| && ranges[k] == r;
        assert spans[k] == s;
      }
    }
  }

  method SomeDisproportionate(spans: seq<string>, oldString: string) returns (some: bool)
    ensures some <==> exists s :: s in spans && IsDisproportionate(s, oldString)
  {
    hide IsDisproportionate;
    for i := 0 to |spans|
      invariant forall k :: 0 <= k < i ==> !IsDisproportionate(spans[k], oldString)
    {
      if IsDisproportionate(spans[i], oldString) {
        assert spans[i] in spans;
        return true;
      }
    }
    return false;
  }

  method AllEqual(spans: seq<string>) returns (same: bool)
    ensures same <==> forall s :: s in spans ==> s == spans[0]
  {
    for i := 0 to |spans|
      invariant forall k :: 0 <= k < i ==> spans[k] == spans[0]
    {
      if spans[i] != spans[0] {
        assert spans[i] in spans;
        return false;
      }
    }
    return true;
  }

  method RunMultiEdit(content: string, edits: seq<Edit>) returns (r: Result)
    ensures r == MultiEdit(content, edits)
  {
    hide ApplyEdit;
    var text, total := content, 0;
    for i := 0 to |edits|
      invariant MultiEdit(content, edits[..i]) == Done(text, total)
    {
      assert edits[..i + 1][..i] == edits[..i];
      var step := RunEdit(text, edits[i]);
      match step {
        case Refused(e) =>
          StaysRefused(content, edits, i + 1);
          return Refused(AtEdit(i, e));
        case Done(next, count) =>
          text, total := next, total + count;
      }
    }
    assert edits[..|edits|] == edits;
    return Done(text, total);
  }

  lemma {:induction false} StaysRefused(content: string, edits: seq<Edit>, i: nat)
    requires i <= |edits| && MultiEdit(content, edits[..i]).Refused?
    ensures MultiEdit(content, edits) == MultiEdit(content, edits[..i])
    decreases |edits| - i
  {
    hide ApplyEdit;
    if i == |edits| {
      assert edits[..i] == edits;
    } else {
      assert edits[..i + 1][..i] == edits[..i];
      StaysRefused(content, edits, i + 1);
    }
  }

  // ------------------------------------------------------------------------- where the edit landed

  /** First line that differs, or the last line both versions have. */
  method FirstDiffLine(before: string, after: string) returns (line: nat)
    ensures var a, b := Lines(before), Lines(after);
      && line < |a| && line < |b|
      && (forall k :: 0 <= k < line ==> a[k] == b[k])
      && (a[line] != b[line] || line + 1 == |a| || line + 1 == |b|)
    ensures before != after ==> Lines(before)[line..] != Lines(after)[line..]
  {
    hide Lines;
    var a, b := Lines(before), Lines(after);
    SameLinesSameText(before, after);
    var n := if |a| <= |b| then |a| else |b|;
    for i := 0 to n
      invariant forall k :: 0 <= k < i ==> a[k] == b[k]
    {
      if a[i] != b[i] {
        assert a[i..][0] != b[i..][0];
        return i;
      }
    }
    line := n - 1;
    if a[line..] == b[line..] {
      assert a == a[..line] + a[line..] && b == b[..line] + b[line..];
      assert a[..line] == b[..line];
    }
  }

  lemma SameLinesSameText(before: string, after: string)
    ensures Lines(before) == Lines(after) ==> before == after
  {
    JoinSplit(before, "\n");
    JoinSplit(after, "\n");
  }
}
