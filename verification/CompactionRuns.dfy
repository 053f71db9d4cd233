/** Whole runs: each step's context is prepared, sent, and extended by the messages the step produced. */
module CompactionRuns {
  import opened Options
  import opened Messages
  import opened Prune
  import opened Compaction

  // ------------------------------------------------------------------------- the hook with its cache

  /** The prepared step with its two closure variables. */
  class PrepareStep {
    var priorSummary: Option<string>
    var cached: Option<(nat, Outcome)>

    constructor ()
      ensures priorSummary == None && cached == None
    {
      priorSummary, cached := None, None;
    }

    /** A call with as many messages as the last computed one gets its result again; any other is computed. */
    method Prepare(c: Call) returns (o: Outcome)
      modifies this
      ensures (o, priorSummary, cached) == Prepared(c, old(priorSummary), old(cached))
    {
      hide Compute;
      if |c.messages| == 0 { return Pass; }
      if cached.Some? && cached.value.0 == |c.messages| { return cached.value.1; }
      o := ComputeStep(c);
      if !o.Reject? { cached := Some((|c.messages|, o)); }
    }

    method ComputeStep(c: Call) returns (o: Outcome)
      requires c.messages != []
      modifies this`priorSummary
      ensures (o, priorSummary) == Compute(c, old(priorSummary))
    {
      hide Fits, Pruned, Truncate, FirstUser;
      if c.first.Throws? { return Pass; }
      if c.first.usable == None { return Reject; }
      if LiveTokens(c) < c.first.usable.value { return Pass; }
      if |c.steps| == 0 { return Pass; }
      var splitAt := SplitAt(c);
      var older, tail := c.messages[..splitAt], c.messages[splitAt..];
      if |older| == 0 { return Pass; }
      if c.second.Throws? || c.second.usable == None || c.second.usable.value <= 0 { return Reject; }
      var usable := c.second.usable.value;
      var fits := Fitting(c, usable);
      PrunedLength(c.messages, splitAt, DEFAULT);
      var pruned, freed, _ := PruneOldToolResults(c.messages, splitAt, DEFAULT);
      if freed >= FREED_THRESHOLD && fits(pruned) { return Rewrite(pruned); }
      var summary := c.summarizer(pruned[..splitAt], priorSummary);
      if !summary.Text? {
        if fits(pruned) { return Rewrite(pruned); }
        var cut := TruncateOldestToFit(pruned, fits, 0);
        return Rewrite(cut);
      }
      priorSummary := Some(summary.summary);
      var context := Summarize(older, tail, summary.summary, fits);
      return Rewrite(context);
    }

    method Summarize(older: seq<Message>, tail: seq<Message>, summary: string, fits: seq<Message> -> bool)
      returns (context: seq<Message>)
      ensures context == Summarized(older, tail, summary, fits)
    {
      hide Truncate, FirstUser;
      var brief := FirstUser(older);
      var tailWithSummary := [SummaryMessage(summary)] + tail;
      var compacted := if brief.Some? then [brief.value] + tailWithSummary else tailWithSummary;
      if !fits(compacted) {
        var truncated := TruncateOldestToFit(compacted, fits, if brief.Some? then 2 else 1);
        if brief.Some? && !fits(truncated) {
          truncated := TruncateOldestToFit(tailWithSummary, fits, 1);
        }
        return truncated;
      }
      return compacted;
    }
  }

  /** Result, next summary and next cache of one call. A rejected call throws before the cache is set. */
  function Prepared(
      c: Call, prior: Option<string>, cached: Option<(nat, Outcome)>)
    : (Outcome, Option<string>, Option<(nat, Outcome)>) {
    if c.messages == [] then (Pass, prior, cached)
    else if cached.Some? && cached.value.0 == |c.messages| then (cached.value.1, prior, cached)
    else
      var (o, prior') := Compute(c, prior);
      (o, prior', if o.Reject? then cached else Some((|c.messages|, o)))
  }

  // ------------------------------------------------------------------------------ what a rewrite keeps

  /** Counted back from the end by whole steps, every position is a place to cut. */
  ghost predicate Aligned(ms: seq<Message>, steps: seq<StepInfo>) {
    forall k :: 0 <= k <= |steps| ==> CutAllowed(ms, |ms| - LastCounts(steps, k))
  }

  /** Keeping a suffix from a legal cut and putting non-tool messages in front keeps both properties. */
  lemma CutKeeps(head: seq<Message>, ms: seq<Message>, steps: seq<StepInfo>, p: nat)
    requires Paired(ms) && Aligned(ms, steps) && p <= |ms| && CutAllowed(ms, p)
    requires forall m :: m in head ==> m.role != Tool
    requires head == [] || p > 0
    ensures Paired(head + ms[p..]) && Aligned(head + ms[p..], steps)
  {
    hide Calls, Answers, LastCounts, Paired;
    SuffixPaired(ms, p);
    NoToolsPaired(head);
    ConcatPaired(head, ms[p..]);
    var r := head + ms[p..];
    forall k | 0 <= k <= |steps| ensures CutAllowed(r, |r| - LastCounts(steps, k)) {
      var q := |ms| - LastCounts(steps, k);
      assert CutAllowed(ms, q);
      var q' := |r| - LastCounts(steps, k);
      if |head| <= q' < |r| {
        assert r[q'] == ms[q];
      } else if 0 < q' < |head| {
        assert r[q'] in head;
      }
    }
  }

  lemma SameShapeAligned(ms: seq<Message>, ms': seq<Message>, steps: seq<StepInfo>)
    requires Aligned(ms, steps) && |ms'| == |ms| && forall i :: 0 <= i < |ms| ==> SameShape(ms[i], ms'[i])
    ensures Aligned(ms', steps)
  {
    hide Calls, Answers, LastCounts;
    forall k | 0 <= k <= |steps| ensures CutAllowed(ms', |ms'| - LastCounts(steps, k)) {
      assert CutAllowed(ms, |ms| - LastCounts(steps, k));
    }
  }

  lemma PruneKeepsAligned(ms: seq<Message>, splitAt: nat, p: Prune.Policy, steps: seq<StepInfo>)
    requires Paired(ms) && Aligned(ms, steps)
    ensures Paired(Pruned(ms, splitAt, p).0) && Aligned(Pruned(ms, splitAt, p).0, steps)
  {
    hide SameShape, Aligned, Paired, PruneMessages;
    PruneKeeps(ms, if splitAt <= |ms| then splitAt else |ms|, START, p);
    PruneKeepsPaired(ms, splitAt, p);
    SameShapeAligned(ms, Pruned(ms, splitAt, p).0, steps);
  }

  lemma {:induction false} LastCountsClamped(steps: seq<StepInfo>, k: int)
    ensures LastCounts(steps, k) == LastCounts(steps, if k < 0 then 0 else if k <= |steps| then k else |steps|)
    decreases |steps|
  {
    if k > 0 && steps != [] { LastCountsClamped(steps[..|steps| - 1], k - 1); }
  }

  lemma SplitIsCut(c: Call)
    requires Aligned(c.messages, c.steps)
    ensures CutAllowed(c.messages, SplitAt(c))
  {
    hide LastCounts, CutAllowed;
    LastCountsClamped(c.steps, c.keepLastSteps);
    var k := if c.keepLastSteps < 0 then 0 else if c.keepLastSteps <= |c.steps| then c.keepLastSteps else |c.steps|;
    assert CutAllowed(c.messages, |c.messages| - LastCounts(c.steps, k));
    CutAtFront(c.messages);
  }

  lemma CutAtFront(ms: seq<Message>)
    ensures CutAllowed(ms, 0)
  {}

  /** Truncation with a protected head of non-tool messages drops a front part of the rest up to a legal cut. */
  lemma TruncateShape(head: seq<Message>, body: seq<Message>, fits: seq<Message> -> bool) returns (cut: nat)
    requires head + body != []
    ensures cut <= |body| && LegalCut(body, cut) && Truncate(head + body, fits, |head|) == head + body[cut..]
  {
    hide TruncateFrom;
    var ms := head + body;
    assert ms[..|head|] == head && ms[|head|..] == body;
    cut := TruncateBest(ms, fits, |head|);
  }

  /** A summarized context is one or two user messages and a suffix of the kept tail from a legal cut. */
  lemma SummarizedShape(older: seq<Message>, tail: seq<Message>, summary: string, fits: seq<Message> -> bool)
    returns (head: seq<Message>, cut: nat)
    ensures forall m :: m in head ==> m.role != Tool
    ensures cut <= |tail| && LegalCut(tail, cut) && head != []
    ensures Summarized(older, tail, summary, fits) == head + tail[cut..]
  {
    hide Truncate;
    var brief, s := FirstUser(older), SummaryMessage(summary);
    var head2 := if brief.Some? then [brief.value, s] else [s];
    var compacted := head2 + tail;
    assert brief.Some? ==> [brief.value] + ([s] + tail) == compacted;
    if fits(compacted) {
      head, cut := head2, 0;
      assert head2 + tail[0..] == compacted;
    } else {
      var truncated := Truncate(compacted, fits, |head2|);
      cut := TruncateShape(head2, tail, fits);
      head := head2;
      if brief.Some? && !fits(truncated) {
        cut := TruncateShape([s], tail, fits);
        head := [s];
      }
    }
  }

  /** A rewrite leaves no tool result without its call, and step boundaries are still places to cut. */
  lemma RewriteKeeps(c: Call, prior: Option<string>)
    requires Paired(c.messages) && Aligned(c.messages, c.steps) && Compute(c, prior).0.Rewrite?
    ensures Paired(Compute(c, prior).0.messages) && Aligned(Compute(c, prior).0.messages, c.steps)
  {
    hide Paired, Aligned, Fits, Pruned, Truncate, Summarized, LegalCut;
    var usable := c.second.usable.value;
    var fits, splitAt := Fitting(c, usable), SplitAt(c);
    var pruned := Pruned(c.messages, splitAt, DEFAULT).0;
    PrunedLength(c.messages, splitAt, DEFAULT);
    PruneKeepsAligned(c.messages, splitAt, DEFAULT, c.steps);
    match c.summarizer(pruned[..splitAt], prior) {
      case Text(summary) =>
        SummarizedKeeps(c, summary, fits);
      case _ =>
        TruncatedKeeps(pruned, fits, c.steps);
    }
  }

  lemma TruncatedKeeps(pruned: seq<Message>, fits: seq<Message> -> bool, steps: seq<StepInfo>)
    requires pruned != [] && Paired(pruned) && Aligned(pruned, steps)
    ensures Paired(Truncate(pruned, fits, 0)) && Aligned(Truncate(pruned, fits, 0), steps)
  {
    hide Paired, Aligned, Truncate;
    assert [] + pruned == pruned;
    var cut := TruncateShape([], pruned, fits);
    CutKeeps([], pruned, steps, cut);
  }

  lemma SummarizedKeeps(c: Call, summary: string, fits: seq<Message> -> bool)
    requires Paired(c.messages) && Aligned(c.messages, c.steps) && SplitAt(c) > 0
    ensures var r := Summarized(c.messages[..SplitAt(c)], c.messages[SplitAt(c)..], summary, fits);
      Paired(r) && Aligned(r, c.steps)
  {
    hide Paired, Aligned, Truncate, Summarized;
    var splitAt := SplitAt(c);
    SplitIsCut(c);
    var head, cut := SummarizedShape(c.messages[..splitAt], c.messages[splitAt..], summary, fits);
    assert c.messages[splitAt..][cut..] == c.messages[splitAt + cut..];
    CutKeeps(head, c.messages, c.steps, splitAt + cut);
  }

  // --------------------------------------------------------------------------------------- whole runs

  /**
   * One step of the loop: the limits and the summarizer as they behave now, the tokens the provider
   * reports, and the messages the step adds.
   */
  datatype Turn = Turn(
    first: Lookup, second: Lookup, summarizer: Summarizer, reported: Option<nat>, block: seq<Message>)

  datatype Loop = Loop(
    live: seq<Message>, steps: seq<StepInfo>, prior: Option<string>, cached: Option<(nat, Outcome)>,
    failed: bool, contexts: seq<seq<Message>>)

  function CallOf(l: Loop, t: Turn, json: Serializer, keep: int): Call {
    Call(l.live, l.steps, json, keep, t.first, t.second, t.summarizer)
  }

  /** The next call would be answered from the cache. */
  predicate Hit(l: Loop) {
    l.live != [] && l.cached.Some? && l.cached.value.0 == |l.live|
  }

  /** Prepare the context, send it, append the answer. A rewritten context stays for the next step. */
  function Advance(l: Loop, t: Turn, json: Serializer, keep: int): Loop {
    if l.failed then l
    else
      var (o, prior, cached) := Prepared(CallOf(l, t, json, keep), l.prior, l.cached);
      if o.Reject? then l.(failed := true)
      else
        var context := if o.Rewrite? then o.messages else l.live;
        Loop(context + t.block, l.steps + [StepInfo(|t.block|, t.reported)], prior, cached, false,
             l.contexts + [context])
  }

  function Run(start: seq<Message>, turns: seq<Turn>, json: Serializer, keep: int): Loop {
    if turns == [] then Loop(start, [], None, None, false, [])
    else Advance(Run(start, turns[..|turns| - 1], json, keep), turns[|turns| - 1], json, keep)
  }

  /** What one step adds: it starts with no tool message and answers only its own calls. */
  ghost predicate WholeStep(block: seq<Message>) {
    Paired(block) && (block == [] || block[0].role != Tool)
  }

  /** No step is answered from a result computed for an earlier step. */
  ghost predicate NoStaleHits(start: seq<Message>, turns: seq<Turn>, json: Serializer, keep: int) {
    forall n :: 0 <= n < |turns| ==> !Hit(Run(start, turns[..n], json, keep))
  }

  ghost predicate LoopInv(l: Loop) {
    && Paired(l.live) && Aligned(l.live, l.steps)
    && forall k :: 0 <= k < |l.contexts| ==> Paired(l.contexts[k])
  }

  lemma BlockKeeps(context: seq<Message>, steps: seq<StepInfo>, block: seq<Message>, reported: Option<nat>)
    requires Paired(context) && Aligned(context, steps) && WholeStep(block)
    ensures Paired(context + block) && Aligned(context + block, steps + [StepInfo(|block|, reported)])
  {
    hide Paired, Calls, Answers;
    ConcatPaired(context, block);
    var ms, steps' := context + block, steps + [StepInfo(|block|, reported)];
    forall k | 0 <= k <= |steps'| ensures CutAllowed(ms, |ms| - LastCounts(steps', k)) {
      if k > 0 {
        assert steps'[..|steps'| - 1] == steps;
        assert LastCounts(steps', k) == |block| + LastCounts(steps, k - 1);
        var p := |context| - LastCounts(steps, k - 1);
        assert CutAllowed(context, p);
        if 0 < p < |context| { assert ms[p] == context[p]; }
        if p == |context| && block != [] { assert ms[p] == block[0]; }
      }
    }
  }

  lemma AdvanceKeepsInv(l: Loop, t: Turn, json: Serializer, keep: int)
    requires LoopInv(l) && !Hit(l) && WholeStep(t.block)
    ensures LoopInv(Advance(l, t, json, keep))
  {
    hide Paired, Aligned, Compute, WholeStep;
    if !l.failed {
      var c := CallOf(l, t, json, keep);
      var o := Prepared(c, l.prior, l.cached).0;
      if o.Rewrite? { RewriteKeeps(c, l.prior); }
      if !o.Reject? {
        BlockKeeps(if o.Rewrite? then o.messages else l.live, l.steps, t.block, t.reported);
      }
    }
  }

  /** Without stale hits every position counted back by whole steps stays a place to cut. */
  lemma {:induction false} StepsStayAligned(start: seq<Message>, turns: seq<Turn>, json: Serializer, keep: int)
    requires Paired(start) && NoStaleHits(start, turns, json, keep)
    requires forall t :: t in turns ==> WholeStep(t.block)
    ensures LoopInv(Run(start, turns, json, keep))
    decreases |turns|
  {
    hide Paired, Advance, Hit, WholeStep, LoopInv;
    if turns == [] {
      StartInv(start);
    } else {
      var n := |turns| - 1;
      var before := turns[..n];
      forall k | 0 <= k < |before| ensures !Hit(Run(start, before[..k], json, keep)) {
        assert before[..k] == turns[..k];
      }
      StepsStayAligned(start, before, json, keep);
      assert turns[n] in turns;
      AdvanceKeepsInv(Run(start, before, json, keep), turns[n], json, keep);
    }
  }

  lemma StartInv(start: seq<Message>)
    requires Paired(start)
    ensures LoopInv(Loop(start, [], None, None, false, []))
  {
    hide Paired;
  }

  // ------------------------------------------------------------ exactly when a context loses a call

  /** The summarized context keeps the tail whole: with the brief, or without it when nothing with it fits. */
  ghost predicate KeepsTail(older: seq<Message>, tail: seq<Message>, summary: string, fits: seq<Message> -> bool) {
    var brief, s := FirstUser(older), SummaryMessage(summary);
    if brief.None? then fits([s] + tail)
    else fits([brief.value, s] + tail) || (fits([s] + tail) && NoCutFits([brief.value, s], tail, fits))
  }

  ghost predicate NoCutFits(head: seq<Message>, tail: seq<Message>, fits: seq<Message> -> bool) {
    forall k :: 0 <= k <= |tail| && LegalCut(tail, k) ==> !fits(head + tail[k..])
  }

  /** A cut behind a protected head keeps the whole rest if and only if that fits. */
  lemma TruncateKeepsIff(head: seq<Message>, body: seq<Message>, fits: seq<Message> -> bool) returns (cut: nat)
    requires head != [] && body != []
    ensures cut <= |body| && LegalCut(body, cut) && Truncate(head + body, fits, |head|) == head + body[cut..]
    ensures cut == 0 <==> fits(head + body)
    ensures fits(Truncate(head + body, fits, |head|)) <==> !NoCutFits(head, body, fits)
  {
    hide TruncateFrom;
    var ms := head + body;
    assert ms[..|head|] == head && ms[|head|..] == body && body[0..] == body;
    cut := TruncateBest(ms, fits, |head|);
    hide Truncate;
    assert LegalCut(body, 0) && LegalCut(body, |body|) && head + body[|body|..] == head;
  }

  /** A summarized context is user messages and a suffix of the tail; when it is the whole tail is `KeepsTail`. */
  lemma SummarizedKeepsIff(older: seq<Message>, tail: seq<Message>, summary: string, fits: seq<Message> -> bool)
    returns (head: seq<Message>, cut: nat)
    requires tail != []
    ensures forall m :: m in head ==> m.role == User
    ensures cut <= |tail| && LegalCut(tail, cut) && Summarized(older, tail, summary, fits) == head + tail[cut..]
    ensures cut == 0 <==> KeepsTail(older, tail, summary, fits)
  {
    var brief, s := FirstUser(older), SummaryMessage(summary);
    assert s.role == User;
    hide Truncate, FirstUser, SummaryMessage, NoCutFits, LegalCut;
    var head2 := if brief.Some? then [brief.value, s] else [s];
    var compacted := head2 + tail;
    assert brief.Some? ==> [brief.value] + ([s] + tail) == compacted;
    head := head2;
    cut := TruncateKeepsIff(head2, tail, fits);
    if fits(compacted) {
      assert tail[0..] == tail;
    } else if brief.Some? && !fits(Truncate(compacted, fits, 2)) {
      head := [s];
      cut := TruncateKeepsIff([s], tail, fits);
    }
  }

  /**
   * The call writes a summary in front of a tail it keeps whole, and the tail starts inside a step: with
   * an answer whose call is in the part that is summarized.
   */
  ghost predicate Orphans(c: Call, prior: Option<string>) {
    && Compute(c, prior).0.Rewrite? && c.second.Found? && c.second.usable.Some?
    && var fits, splitAt := Fitting(c, c.second.usable.value), SplitAt(c);
    var (pruned, t) := Pruned(c.messages, splitAt, DEFAULT);
    && !(t.freed >= FREED_THRESHOLD && fits(pruned)) && AnswerFor(c, prior).Text?
    && KeepsTail(c.messages[..splitAt], c.messages[splitAt..], AnswerFor(c, prior).summary, fits)
    && CutsAnswer(c.messages, splitAt)
  }

  /** A rewrite of a paired context is paired unless the call cuts an answer off. */
  lemma RewritePairedIff(c: Call, prior: Option<string>)
    requires Paired(c.messages) && Compute(c, prior).0.Rewrite?
    ensures Paired(Compute(c, prior).0.messages) <==> !Orphans(c, prior)
  {
    hide Paired, Fits, Pruned, Truncate, Summarized, LegalCut, KeepsTail, CutsAnswer;
    var fits, splitAt := Fitting(c, c.second.usable.value), SplitAt(c);
    PrunedLength(c.messages, splitAt, DEFAULT);
    PruneKeepsPaired(c.messages, splitAt, DEFAULT);
    var pruned := Pruned(c.messages, splitAt, DEFAULT).0;
    match c.summarizer(pruned[..splitAt], prior) {
      case Text(summary) =>
        SummarizedPairedIff(c.messages, splitAt, summary, fits);
      case _ =>
        TruncatedPaired(pruned, fits);
    }
  }

  lemma TruncatedPaired(pruned: seq<Message>, fits: seq<Message> -> bool)
    requires pruned != [] && Paired(pruned)
    ensures Paired(Truncate(pruned, fits, 0))
  {
    hide Paired, Truncate;
    assert [] + pruned == pruned;
    var cut := TruncateShape([], pruned, fits);
    SuffixPaired(pruned, cut);
    assert [] + pruned[cut..] == pruned[cut..];
  }

  lemma SummarizedPairedIff(ms: seq<Message>, splitAt: nat, summary: string, fits: seq<Message> -> bool)
    requires splitAt <= |ms| && Paired(ms)
    ensures Paired(Summarized(ms[..splitAt], ms[splitAt..], summary, fits)) <==>
      !(KeepsTail(ms[..splitAt], ms[splitAt..], summary, fits) && CutsAnswer(ms, splitAt))
  {
    hide Paired, Truncate, Summarized, KeepsTail, CutsAnswer;
    var older, tail := ms[..splitAt], ms[splitAt..];
    if tail == [] {
      var head, cut := SummarizedShape(older, tail, summary, fits);
      NoToolsPaired(head);
      assert head + tail[cut..] == head;
      AllowedCutsNothing(ms, splitAt);
    } else {
      var head, cut := SummarizedKeepsIff(older, tail, summary, fits);
      assert tail[cut..] == ms[splitAt + cut..];
      CutPairedIff(head, ms, splitAt + cut);
      if cut > 0 {
        assert cut < |tail| ==> ms[splitAt + cut] == tail[cut];
        AllowedCutsNothing(ms, splitAt + cut);
      }
    }
  }

  ghost predicate AllPaired(l: Loop) {
    forall k :: 0 <= k < |l.contexts| ==> Paired(l.contexts[k])
  }

  /** The step computes a context and cuts an answer off in it. */
  ghost predicate OrphaningStep(l: Loop, t: Turn, json: Serializer, keep: int) {
    !l.failed && !Hit(l) && Orphans(CallOf(l, t, json, keep), l.prior)
  }

  ghost predicate SomeOrphaningStep(start: seq<Message>, turns: seq<Turn>, json: Serializer, keep: int) {
    exists n :: 0 <= n < |turns| && OrphaningStep(Run(start, turns[..n], json, keep), turns[n], json, keep)
  }

  /** Everything a later context can be made of is paired. */
  ghost predicate PairedLoop(l: Loop) {
    && Paired(l.live) && AllPaired(l)
    && (l.cached.Some? && l.cached.value.1.Rewrite? ==> Paired(l.cached.value.1.messages))
  }

  lemma AdvancePairedIff(l: Loop, t: Turn, json: Serializer, keep: int)
    requires PairedLoop(l) && Paired(t.block)
    ensures AllPaired(Advance(l, t, json, keep)) <==> !OrphaningStep(l, t, json, keep)
    ensures AllPaired(Advance(l, t, json, keep)) ==> PairedLoop(Advance(l, t, json, keep))
  {
    hide Paired, Compute;
    if !l.failed {
      var c := CallOf(l, t, json, keep);
      if l.live != [] && !Hit(l) && Compute(c, l.prior).0.Rewrite? { RewritePairedIff(c, l.prior); }
      assert !Compute(c, l.prior).0.Rewrite? ==> !Orphans(c, l.prior);
      assert l.live == [] ==> !Compute(c, l.prior).0.Rewrite? by { NothingToRewrite(c, l.prior); }
      hide Orphans;
      var (o, prior, cached) := Prepared(c, l.prior, l.cached);
      if !o.Reject? {
        var context := if o.Rewrite? then o.messages else l.live;
        assert Advance(l, t, json, keep).contexts == l.contexts + [context];
        assert (l.contexts + [context])[|l.contexts|] == context;
        if Paired(context) { ConcatPaired(context, t.block); }
      }
    }
  }

  lemma NothingToRewrite(c: Call, prior: Option<string>)
    ensures c.messages == [] ==> Compute(c, prior).0.Pass?
  {}

  /** Contexts that were sent stay sent. */
  lemma AdvanceKeepsContexts(l: Loop, t: Turn, json: Serializer, keep: int)
    ensures AllPaired(Advance(l, t, json, keep)) ==> AllPaired(l)
  {
    hide Paired, Compute;
    var next := Advance(l, t, json, keep);
    assert forall k :: 0 <= k < |l.contexts| ==> next.contexts[k] == l.contexts[k];
  }

  /**
   * Over any run of steps, stale cache hits included: every context that is sent holds each tool result
   * with its call if and only if no computed step cuts an answer off.
   */
  lemma {:induction false} ContextsPairedIff(start: seq<Message>, turns: seq<Turn>, json: Serializer, keep: int)
    requires Paired(start) && forall t :: t in turns ==> Paired(t.block)
    ensures AllPaired(Run(start, turns, json, keep)) <==> !SomeOrphaningStep(start, turns, json, keep)
    ensures AllPaired(Run(start, turns, json, keep)) ==> PairedLoop(Run(start, turns, json, keep))
    decreases |turns|
  {
    hide Paired, Advance, AllPaired, PairedLoop, OrphaningStep, SomeOrphaningStep;
    if turns == [] {
      StartPaired(start, json, keep);
    } else {
      var n := |turns| - 1;
      var front, l := turns[..n], Run(start, turns[..n], json, keep);
      ContextsPairedIff(start, front, json, keep);
      assert turns[n] in turns;
      SomeOrphaningLast(start, turns, json, keep);
      AdvanceKeepsContexts(l, turns[n], json, keep);
      if AllPaired(l) { AdvancePairedIff(l, turns[n], json, keep); }
    }
  }

  lemma StartPaired(start: seq<Message>, json: Serializer, keep: int)
    requires Paired(start)
    ensures AllPaired(Run(start, [], json, keep)) && PairedLoop(Run(start, [], json, keep))
    ensures !SomeOrphaningStep(start, [], json, keep)
  {
    hide Paired;
  }

  lemma SomeOrphaningLast(start: seq<Message>, turns: seq<Turn>, json: Serializer, keep: int)
    requires turns != []
    ensures var n := |turns| - 1;
      SomeOrphaningStep(start, turns, json, keep) <==>
        || SomeOrphaningStep(start, turns[..n], json, keep)
        || OrphaningStep(Run(start, turns[..n], json, keep), turns[n], json, keep)
  {
    hide OrphaningStep, Run;
    var n := |turns| - 1;
    var front := turns[..n];
    assert forall k :: 0 <= k < n ==> turns[..k] == front[..k];
    if SomeOrphaningStep(start, front, json, keep) {
      var k :| 0 <= k < n && OrphaningStep(Run(start, front[..k], json, keep), front[k], json, keep);
      assert OrphaningStep(Run(start, turns[..k], json, keep), turns[k], json, keep);
    }
  }

  /** Every computed step splits in front of a message that is no tool result. */
  ghost predicate SplitsOnSteps(start: seq<Message>, turns: seq<Turn>, json: Serializer, keep: int) {
    forall n :: 0 <= n < |turns| ==> SplitsOnStep(Run(start, turns[..n], json, keep), turns[n], json, keep)
  }

  predicate SplitsOnStep(l: Loop, t: Turn, json: Serializer, keep: int) {
    l.failed || Hit(l) || CutAllowed(l.live, SplitAt(CallOf(l, t, json, keep)))
  }

  /** Where each step's call is split decides enough: in front of a message that is no tool result, no call is lost. */
  lemma {:induction false} SplitsOnStepsSafe(start: seq<Message>, turns: seq<Turn>, json: Serializer, keep: int)
    requires Paired(start) && forall t :: t in turns ==> Paired(t.block)
    requires SplitsOnSteps(start, turns, json, keep)
    ensures PairedLoop(Run(start, turns, json, keep))
    decreases |turns|
  {
    hide Paired, Advance, AllPaired, PairedLoop, SplitsOnStep;
    if turns == [] {
      StartPaired(start, json, keep);
    } else {
      var n := |turns| - 1;
      var front, l := turns[..n], Run(start, turns[..n], json, keep);
      assert forall k :: 0 <= k < n ==> front[..k] == turns[..k];
      SplitsOnStepsSafe(start, front, json, keep);
      assert turns[n] in turns;
      assert SplitsOnStep(l, turns[n], json, keep);
      SplitNoOrphan(l, turns[n], json, keep);
      AdvancePairedIff(l, turns[n], json, keep);
    }
  }

  lemma SplitNoOrphan(l: Loop, t: Turn, json: Serializer, keep: int)
    requires PairedLoop(l) && SplitsOnStep(l, t, json, keep)
    ensures !OrphaningStep(l, t, json, keep)
  {
    hide Paired, CutAllowed, Compute, KeepsTail, CutsAnswer, SplitAt, Hit;
    if !l.failed && !Hit(l) { AllowedCutsNothing(l.live, SplitAt(CallOf(l, t, json, keep))); }
  }

  /**
   * Over any run of steps, whatever is pruned, summarized or cut and whatever was cut before: when no
   * step is answered from an earlier step's result, none cuts an answer off.
   */
  lemma NoOrphanedResults(start: seq<Message>, turns: seq<Turn>, json: Serializer, keep: int)
    requires Paired(start) && NoStaleHits(start, turns, json, keep)
    requires forall t :: t in turns ==> WholeStep(t.block)
    ensures AllPaired(Run(start, turns, json, keep)) && !SomeOrphaningStep(start, turns, json, keep)
  {
    hide Paired, Run, Hit, SplitAt, CutAllowed, AllPaired, SomeOrphaningStep;
    forall n | 0 <= n < |turns| ensures SplitsOnStep(Run(start, turns[..n], json, keep), turns[n], json, keep) {
      var front := turns[..n];
      assert forall k :: 0 <= k < n ==> front[..k] == turns[..k];
      StepsStayAligned(start, front, json, keep);
      SplitIsCut(CallOf(Run(start, front, json, keep), turns[n], json, keep));
    }
    SplitsOnStepsSafe(start, turns, json, keep);
    ContextsPairedIff(start, turns, json, keep);
  }

  // ------------------------------------------------------------------------------------- the cache

  /** Repeating a computed call on the same messages changes nothing and returns the same result. */
  lemma RepeatReturnsSame(c: Call, prior: Option<string>, cached: Option<(nat, Outcome)>)
    requires !Prepared(c, prior, cached).0.Reject?
    ensures var (o, prior', cached') := Prepared(c, prior, cached);
      Prepared(c, prior', cached') == (o, prior', cached')
  {
    hide Compute;
  }

  /**
   * After a computed step the next one is answered from the cache if and only if the step added
   * exactly as many messages as the rewrite dropped (none, when nothing was rewritten).
   */
  lemma StaleIff(l: Loop, t: Turn, json: Serializer, keep: int)
    requires l.live != [] && !l.failed && !Hit(l) && !Advance(l, t, json, keep).failed
    ensures var next := Advance(l, t, json, keep);
      Hit(next) <==> |next.live| == |l.live|
    ensures var next := Advance(l, t, json, keep);
      Hit(next) && Prepared(CallOf(l, t, json, keep), l.prior, l.cached).0.Rewrite? ==>
        forall t2: Turn :: !Advance(next, t2, json, keep).failed
          && Advance(next, t2, json, keep).contexts[|next.contexts|] == next.contexts[|l.contexts|]
  {
    hide Compute;
  }
}
