/**
 * What a stale hit of the compaction cache can do: for any serializer and one constant window, a run of
 * four steps that ends with a tool result whose call is gone.
 */
module StaleCache {
  import opened Options
  import opened Messages
  import opened Prune
  import opened Compaction
  import opened CompactionRuns

  // ------------------------------------------------------------------------------- computed calls

  lemma NothingToPrune(ms: seq<Message>, splitAt: nat)
    requires splitAt <= |ms| && forall i :: 0 <= i < splitAt ==> !Prunable(ms[i])
    ensures Pruned(ms, splitAt, DEFAULT) == (ms, START)
  {
    hide Prunable;
    var n := splitAt;
    while n > 0
      invariant 0 <= n <= splitAt
      invariant PruneMessages(ms, n, START, DEFAULT) == Pruned(ms, splitAt, DEFAULT)
    {
      assert PruneMessage(ms[n - 1], START, DEFAULT) == (ms[n - 1], START);
      assert ms[n - 1 := ms[n - 1]] == ms;
      n := n - 1;
    }
  }

  /** A call that is too big, has nothing to prune and gets a summary. */
  lemma SummarizingCall(c: Call, prior: Option<string>, usable: int, summary: string)
    requires c.first == Found(Some(usable)) && c.second == c.first && usable > 0 && c.steps != []
    requires forall ms, p :: c.summarizer(ms, p) == Compaction.Summary.Text(summary)
    requires 0 < SplitAt(c) < |c.messages| && forall i :: 0 <= i < SplitAt(c) ==> !Prunable(c.messages[i])
    requires !Fits(c.messages, c, usable)
    ensures Compute(c, prior) ==
      (Rewrite(Summarized(c.messages[..SplitAt(c)], c.messages[SplitAt(c)..], summary, Fitting(c, usable))),
       Some(summary))
  {
    hide Pruned, SplitAt, LiveTokens, Summarized;
    NothingToPrune(c.messages, SplitAt(c));
    TriggerIffTooBig(c, usable);
  }

  /** When nothing with the brief fits, the brief is dropped and the whole tail kept behind the summary. */
  lemma SummarizedDropsBrief(older: seq<Message>, tail: seq<Message>, summary: string, fits: seq<Message> -> bool)
    requires FirstUser(older).Some? && fits([SummaryMessage(summary)] + tail)
    requires forall rest :: !fits([FirstUser(older).value, SummaryMessage(summary)] + rest)
    ensures Summarized(older, tail, summary, fits) == [SummaryMessage(summary)] + tail
  {
    hide Truncate, FirstUser;
    var brief, s := FirstUser(older).value, SummaryMessage(summary);
    var compacted := [brief, s] + tail;
    assert [brief] + ([s] + tail) == compacted;
    var cut := TruncateShape([brief, s], tail, fits);
    var whole := [s] + tail;
    assert whole[..1] == [s] && whole[1..] == tail;
    var cut2 := TruncateBest(whole, fits, 1);
    assert tail[0..] == tail && LegalCut(tail, 0);
    assert cut2 == 0;
  }

  /** When everything fits behind the brief, the whole tail is kept. */
  lemma SummarizedKeepsBrief(older: seq<Message>, tail: seq<Message>, summary: string, fits: seq<Message> -> bool)
    requires FirstUser(older).Some? && fits([FirstUser(older).value, SummaryMessage(summary)] + tail)
    ensures Summarized(older, tail, summary, fits) == [FirstUser(older).value, SummaryMessage(summary)] + tail
  {
    hide Truncate, FirstUser;
    var brief, s := FirstUser(older).value, SummaryMessage(summary);
    assert [brief] + ([s] + tail) == [brief, s] + tail;
  }

  // ---------------------------------------------------------------------------------- the messages

  /** A long brief, a note, a step that calls a tool, and a step that only remarks. */
  datatype Cast = Cast(brief: Message, note: Message, call: Message, result: Message, remark: Message, id: string) {
    ghost predicate Valid() {
      && brief.role == User && note.role == User && brief.content.Str?
      && call == Message(Assistant, Parts([ToolCall(id)]))
      && result.role == Tool && result.content == Parts([ToolResult(id, Output.Text(""))])
      && remark == Message(Assistant, Str(""))
    }
  }

  lemma StepsAreWhole(x: Cast)
    requires x.Valid()
    ensures WholeStep([x.call, x.result]) && WholeStep([x.remark]) && Paired([x.brief, x.note])
  {
    NoToolsPaired([x.remark]);
    NoToolsPaired([x.brief, x.note]);
    var ms := [x.call, x.result];
    forall i, id | 0 <= i < |ms| && Answers(ms[i], id) ensures exists j :: CalledAt(ms, i, j, id) {
      assert ms[1].content.parts[0].id == x.id;
      assert i == 1 && id == x.id;
      assert CalledAt(ms, 1, 0, id);
    }
  }

  lemma ResultUncalled(x: Cast, s: Message, t: Message, rest: seq<Message>)
    requires x.Valid() && s.role == User && t.role == User
    ensures !Paired([s, t, x.result] + rest)
  {
    var ms := [s, t, x.result] + rest;
    assert x.result.content.parts[0].ToolResult? && x.result.content.parts[0].id == x.id;
    assert ms[2] == x.result && Answers(ms[2], x.id);
    forall j ensures !CalledAt(ms, 2, j, x.id) {}
  }

  // -------------------------------------------------------------------------------------- the sizes

  function Weight(m: Message, json: Serializer): nat {
    if m.content.Str? then |m.content.text| else json(m.content.parts)
  }

  lemma OneChars(m: Message, json: Serializer)
    ensures Chars([m], json) == Weight(m, json)
  {
    assert [m][..0] == [];
    assert Chars([], json) == 0;
  }

  lemma CharsCons(m: Message, rest: seq<Message>, json: Serializer)
    ensures Chars([m] + rest, json) == Weight(m, json) + Chars(rest, json)
  {
    OneChars(m, json);
    CharsConcat([m], rest, json);
  }

  lemma ThreeChars(a: Message, b: Message, c: Message, json: Serializer)
    ensures Chars([a, b, c], json) == Weight(a, json) + Weight(b, json) + Weight(c, json)
  {
    OneChars(c, json);
    CharsCons(b, [c], json);
    CharsCons(a, [b, c], json);
    hide Chars, Weight;
    assert [b] + [c] == [b, c] && [a] + [b, c] == [a, b, c];
  }

  lemma FiveChars(a: Message, b: Message, c: Message, d: Message, e: Message, json: Serializer)
    ensures Chars([a, b, c, d, e], json) ==
      Weight(a, json) + Weight(b, json) + Weight(c, json) + Weight(d, json) + Weight(e, json)
  {
    ThreeChars(c, d, e, json);
    CharsCons(b, [c, d, e], json);
    CharsCons(a, [b, c, d, e], json);
    hide Chars, Weight;
    assert [b] + [c, d, e] == [b, c, d, e] && [a] + [b, c, d, e] == [a, b, c, d, e];
  }

  /** The window: one token too few for the first summary and two tool steps. */
  function Window(x: Cast, earlier: string, json: Serializer): nat {
    EstimateTokens([SummaryMessage(earlier), x.call, x.result, x.call, x.result], json)
  }

  /** The tool call weighs more than the second summary, so replacing one by the other makes room. */
  ghost predicate Heavy(x: Cast, later: string, json: Serializer) {
    Weight(x.call, json) >= Weight(SummaryMessage(later), json) + 4
  }

  lemma Room(x: Cast, earlier: string, later: string, json: Serializer)
    requires Heavy(x, later, json)
    ensures var s1, s2 := SummaryMessage(earlier), SummaryMessage(later);
      && EstimateTokens([s1, x.call, x.result], json) < Window(x, earlier, json)
      && EstimateTokens([s1, s2, x.result, x.call, x.result], json) < Window(x, earlier, json)
  {
    hide Chars, SummaryMessage, Weight;
    var s1, s2 := SummaryMessage(earlier), SummaryMessage(later);
    ThreeChars(s1, x.call, x.result, json);
    FiveChars(s1, x.call, x.result, x.call, x.result, json);
    FiveChars(s1, s2, x.result, x.call, x.result, json);
  }

  // ---------------------------------------------------------------------------------------- the run

  lemma LastTwo(steps: seq<StepInfo>)
    requires steps != []
    ensures LastCounts(steps, 2) ==
      steps[|steps| - 1].messageCount + if |steps| == 1 then 0 else steps[|steps| - 2].messageCount
  {
    var front := steps[..|steps| - 1];
    assert LastCounts(steps, 2) == steps[|steps| - 1].messageCount + LastCounts(front, 1);
    if front != [] {
      assert LastCounts(front[..|front| - 1], 0) == 0;
    }
  }

  lemma NoOverhead(c: Call, ms: seq<Message>, usable: int)
    requires c.steps != [] && c.steps[|c.steps| - 1].reported == None
    ensures Fits(ms, c, usable) <==> EstimateTokens(ms, c.json) < usable
  {}

  /** The brief does not fit, so the summary alone stands in front of the kept step. */
  lemma SecondCall(x: Cast, c: Call, prior: Option<string>, earlier: string, usable: nat)
    requires x.Valid() && c.messages == [x.brief, x.note, x.call, x.result]
    requires c.steps == [StepInfo(2, None)] && c.keepLastSteps == 2
    requires |x.brief.content.text| == 4 * usable
    requires EstimateTokens([SummaryMessage(earlier), x.call, x.result], c.json) < usable
    requires c.first == Found(Some(usable)) && c.second == c.first
    requires forall ms, p :: c.summarizer(ms, p) == Compaction.Summary.Text(earlier)
    ensures Compute(c, prior).0 == Rewrite([SummaryMessage(earlier), x.call, x.result])
  {
    var s := SummaryMessage(earlier);
    hide SummaryMessage, Compute, Summarized, Chars;
    LastTwo(c.steps);
    assert SplitAt(c) == 2;
    var older, tail := [x.brief, x.note], [x.call, x.result];
    assert c.messages[..2] == older && FirstUser(older) == Some(x.brief) && c.messages[2..] == tail;
    assert c.messages == [x.brief] + [x.note, x.call, x.result];
    OneChars(x.brief, c.json);
    assert !Fits([x.brief], c, usable) by { NoOverhead(c, [x.brief], usable); }
    hide FirstUser, SplitAt;
    TooBigInFront(x.brief, [x.note, x.call, x.result], c, usable);
    SummarizingCall(c, prior, usable, earlier);
    forall rest ensures !Fits([x.brief, s] + rest, c, usable) {
      assert [x.brief, s] + rest == [x.brief] + ([s] + rest);
      TooBigInFront(x.brief, [s] + rest, c, usable);
    }
    assert [s] + tail == [s, x.call, x.result];
    NoOverhead(c, [s] + tail, usable);
    SummarizedDropsBrief(older, tail, earlier, Fitting(c, usable));
  }

  lemma TooBigInFront(m: Message, rest: seq<Message>, c: Call, usable: int)
    requires !Fits([m], c, usable)
    ensures !Fits([m] + rest, c, usable)
  {
    hide Fits;
    if Fits([m] + rest, c, usable) { PartFits([m], rest, c, usable); }
  }

  /** The split falls inside a step: its call is summarized, its result is kept. */
  lemma FourthCall(x: Cast, c: Call, prior: Option<string>, earlier: string, later: string)
    requires x.Valid() && c.messages == [SummaryMessage(earlier), x.call, x.result, x.call, x.result]
    requires c.steps == [StepInfo(2, None), StepInfo(1, None), StepInfo(2, None)] && c.keepLastSteps == 2
    requires Heavy(x, later, c.json)
    requires c.first == Found(Some(Window(x, earlier, c.json))) && c.second == c.first
    requires forall ms, p :: c.summarizer(ms, p) == Compaction.Summary.Text(later)
    ensures Compute(c, prior).0 ==
      Rewrite([SummaryMessage(earlier), SummaryMessage(later), x.result, x.call, x.result])
  {
    var s1, s2, usable := SummaryMessage(earlier), SummaryMessage(later), Window(x, earlier, c.json);
    assert s1.role == User;
    Room(x, earlier, later, c.json);
    hide SummaryMessage, Compute, Summarized, Chars, Heavy;
    LastTwo(c.steps);
    assert SplitAt(c) == 2;
    var older, tail := [s1, x.call], [x.result, x.call, x.result];
    assert c.messages[..2] == older && FirstUser(older) == Some(s1) && c.messages[2..] == tail;
    hide FirstUser, SplitAt;
    NoOverhead(c, c.messages, usable);
    SummarizingCall(c, prior, usable, later);
    var kept := [s1, s2] + tail;
    assert kept == [s1, s2, x.result, x.call, x.result];
    NoOverhead(c, kept, usable);
    SummarizedKeepsBrief(older, tail, later, Fitting(c, usable));
  }

  /** The loop after a turn that sent `context`. */
  function After(l: Loop, t: Turn, context: seq<Message>, prior: Option<string>, cached: Option<(nat, Outcome)>): Loop {
    Loop(context + t.block, l.steps + [StepInfo(|t.block|, t.reported)], prior, cached, false, l.contexts + [context])
  }

  /** What one turn does when its call is not answered from the cache. */
  lemma AdvanceComputed(l: Loop, t: Turn, json: Serializer, keep: int)
    requires !l.failed && l.live != [] && !Hit(l)
    ensures var (o, prior) := Compute(CallOf(l, t, json, keep), l.prior);
      var context := if o.Rewrite? then o.messages else l.live;
      o.Reject? || Advance(l, t, json, keep) == After(l, t, context, prior, Some((|l.live|, o)))
  {
    hide Compute;
  }

  lemma AdvanceCached(l: Loop, t: Turn, json: Serializer, keep: int)
    requires !l.failed && Hit(l) && l.cached.value.1.Rewrite?
    ensures Advance(l, t, json, keep) == After(l, t, l.cached.value.1.messages, l.prior, l.cached)
  {
    hide Compute;
  }

  /** Four turns under one window: two tool steps around a remark. */
  ghost predicate Script(x: Cast, earlier: string, later: string, ts: seq<Turn>, json: Serializer) {
    && x.Valid() && Heavy(x, later, json) && |ts| == 4
    && |x.brief.content.text| == 4 * Window(x, earlier, json)
    && (forall k :: 0 <= k < 4 ==>
         ts[k].first == ts[k].second == Found(Some(Window(x, earlier, json))) && ts[k].reported == None)
    && (forall ms, p :: ts[1].summarizer(ms, p) == Compaction.Summary.Text(earlier))
    && (forall ms, p :: ts[3].summarizer(ms, p) == Compaction.Summary.Text(later))
    && ts[0].block == ts[2].block == [x.call, x.result] && ts[1].block == [x.remark]
  }

  /**
   * A run that orphans a tool result: the third call is answered with the second one's result, so a
   * step's message is lost while its count is not, and the fourth call cuts inside a kept step.
   */
  lemma StaleHitCanOrphan(x: Cast, earlier: string, later: string, ts: seq<Turn>, json: Serializer)
    requires Script(x, earlier, later, ts, json)
    ensures WholeStep(ts[0].block) && WholeStep(ts[1].block) && WholeStep(ts[2].block) && Paired([x.brief, x.note])
    ensures Hit(Run([x.brief, x.note], ts[..2], json, 2))
    ensures !Run([x.brief, x.note], ts, json, 2).failed && !AllPaired(Run([x.brief, x.note], ts, json, 2))
  {
    hide Advance, Paired, WholeStep, SummaryMessage, Window, Heavy, Run, AllPaired;
    StepsAreWhole(x);
    var start := [x.brief, x.note];
    var l2 := FirstTurns(x, earlier, later, ts, json);
    RunStep(start, ts, 2, json);
    RunStep(start, ts, 3, json);
    assert ts[..4] == ts;
    ThenOrphans(x, earlier, later, l2, ts, json);
  }

  lemma RunStep(start: seq<Message>, ts: seq<Turn>, n: nat, json: Serializer)
    requires n < |ts|
    ensures Run(start, ts[..n + 1], json, 2) == Advance(Run(start, ts[..n], json, 2), ts[n], json, 2)
  {
    hide Advance;
    assert ts[..n + 1][..n] == ts[..n];
  }

  lemma FirstTurns(x: Cast, earlier: string, later: string, ts: seq<Turn>, json: Serializer) returns (l2: Loop)
    requires Script(x, earlier, later, ts, json)
    ensures l2 == Run([x.brief, x.note], ts[..2], json, 2) && !l2.failed && Hit(l2) && |l2.contexts| == 2
    ensures l2.cached == Some((4, Rewrite([SummaryMessage(earlier), x.call, x.result])))
    ensures l2.steps == [StepInfo(2, None), StepInfo(1, None)]
  {
    hide SummaryMessage, Advance, Run, Compute, Window;
    Room(x, earlier, later, json);
    hide Heavy;
    var start := [x.brief, x.note];
    var l0 := Loop(start, [], None, None, false, []);
    assert Run(start, ts[..0], json, 2) == l0 by { NoTurns(start, ts, json); }
    RunStep(start, ts, 0, json);
    RunStep(start, ts, 1, json);
    FirstTurn(l0, ts[0], x, json);
    var l1 := Advance(l0, ts[0], json, 2);
    SecondCall(x, CallOf(l1, ts[1], json, 2), l1.prior, earlier, Window(x, earlier, json));
    AdvanceComputed(l1, ts[1], json, 2);
    l2 := Advance(l1, ts[1], json, 2);
    assert l2.live == [SummaryMessage(earlier), x.call, x.result, x.remark];
  }

  lemma NoTurns(start: seq<Message>, ts: seq<Turn>, json: Serializer)
    ensures Run(start, ts[..0], json, 2) == Loop(start, [], None, None, false, [])
  {}

  /** Too big already, but there is no step to give up yet. */
  lemma FirstTurn(l0: Loop, t1: Turn, x: Cast, json: Serializer)
    requires l0 == Loop([x.brief, x.note], [], None, None, false, []) && t1.first.Found? && t1.first.usable.Some?
    requires t1.block == [x.call, x.result] && t1.reported == None
    ensures Advance(l0, t1, json, 2) ==
      Loop([x.brief, x.note, x.call, x.result], [StepInfo(2, None)], None, Some((2, Pass)), false, [l0.live])
  {
    hide LiveTokens;
    assert Compute(CallOf(l0, t1, json, 2), None) == (Pass, None);
    AdvanceComputed(l0, t1, json, 2);
    assert l0.live + t1.block == [x.brief, x.note, x.call, x.result];
  }

  lemma ThenOrphans(x: Cast, earlier: string, later: string, l2: Loop, ts: seq<Turn>, json: Serializer)
    requires Script(x, earlier, later, ts, json)
    requires !l2.failed && Hit(l2) && |l2.contexts| == 2
    requires l2.cached == Some((4, Rewrite([SummaryMessage(earlier), x.call, x.result])))
    requires l2.steps == [StepInfo(2, None), StepInfo(1, None)]
    ensures var l4 := Advance(Advance(l2, ts[2], json, 2), ts[3], json, 2);
      !l4.failed && |l4.contexts| == 4 && !Paired(l4.contexts[3]) && !AllPaired(l4)
  {
    var s1, s2 := SummaryMessage(earlier), SummaryMessage(later);
    assert s1.role == User && s2.role == User;
    ResultUncalled(x, s1, s2, [x.call, x.result]);
    hide SummaryMessage, Advance, Paired, Compute, Window, Heavy;
    AdvanceCached(l2, ts[2], json, 2);
    var l3 := Advance(l2, ts[2], json, 2);
    assert l3.live == [s1, x.call, x.result, x.call, x.result];
    assert l3.steps == [StepInfo(2, None), StepInfo(1, None), StepInfo(2, None)];
    FourthCall(x, CallOf(l3, ts[3], json, 2), l3.prior, earlier, later);
    AdvanceComputed(l3, ts[3], json, 2);
    assert [s1, s2, x.result] + [x.call, x.result] == [s1, s2, x.result, x.call, x.result];
  }
}
