/**
 * One `prepareStep` call: decide whether the live context is too big, then prune, summarize or cut it
 * until it fits the usable budget.
 */
module Compaction {
  import opened Options
  import opened Messages
  import opened Prune

  // -------------------------------------------------------------------------------- the budget

  /** A number as the limits registry may report it. */
  datatype Limit = NotFinite | Finite(v: int)

  const RESERVE_CEILING := 20_000

  function Max(x: int, y: int): int { if x >= y then x else y }

  function Min(x: int, y: int): int { if x <= y then x else y }

  function UsableInputTokens(contextLength: int, maxOutputTokens: Option<int>, reserveOverride: Option<int>): int {
    Max(0, contextLength - Reserve(maxOutputTokens, reserveOverride))
  }

  /** Tokens held free for the reply. */
  function Reserve(maxOutputTokens: Option<int>, reserveOverride: Option<int>): int {
    if reserveOverride.Some? then reserveOverride.value
    else if maxOutputTokens == None then RESERVE_CEILING
    else Min(maxOutputTokens.value, RESERVE_CEILING)
  }

  predicate Positive(l: Limit) { l.Finite? && l.v > 0 }

  /** The usable budget, or nothing when no window can be established. */
  function ResolveWindow(
      contextLength: Option<Limit>, maxOutputTokens: Option<Limit>, reserve: Option<Limit>): (u: Option<int>)
    ensures u.Some? ==> u.value > 0
  {
    if contextLength == None || !Positive(contextLength.value) then None
    else if maxOutputTokens.Some? && !Positive(maxOutputTokens.value) then None
    else if reserve.Some? && !(reserve.value.Finite? && reserve.value.v >= 0) then None
    else
      var usable := UsableInputTokens(
        contextLength.value.v,
        if maxOutputTokens.Some? then Some(maxOutputTokens.value.v) else None,
        if reserve.Some? then Some(reserve.value.v) else None);
      if usable <= 0 then None else Some(usable)
  }

  /**
   * The budget leaves exactly the reserve free: the override when there is one, else the room for the
   * longest reply, but no more than the ceiling. There is none when the reserve takes the whole window.
   */
  lemma UsableLeavesReserve(contextLength: int, maxOutputTokens: Option<int>, reserve: Option<int>)
    requires contextLength > 0
    requires (maxOutputTokens.Some? ==> maxOutputTokens.value > 0) && (reserve.Some? ==> reserve.value >= 0)
    ensures var u := ResolveWindow(Some(Finite(contextLength)),
                                   if maxOutputTokens.Some? then Some(Finite(maxOutputTokens.value)) else None,
                                   if reserve.Some? then Some(Finite(reserve.value)) else None);
      && (u.Some? ==> u.value > 0)
      && (u.Some? && reserve.Some? ==> u.value + reserve.value == contextLength)
      && (u.Some? && reserve == None && maxOutputTokens == None ==> u.value + RESERVE_CEILING == contextLength)
      && (u.Some? && reserve == None && maxOutputTokens.Some? ==>
           u.value + Min(maxOutputTokens.value, RESERVE_CEILING) == contextLength)
      && (u == None <==> contextLength <= Reserve(maxOutputTokens, reserve))
  {}

  /** The budget is `v` exactly when the limits are usable and `v` is what the reserve leaves. */
  lemma WindowIff(contextLength: Option<Limit>, maxOutputTokens: Option<Limit>, reserve: Option<Limit>, v: int)
    ensures ResolveWindow(contextLength, maxOutputTokens, reserve) == Some(v) <==>
      && v > 0
      && (reserve.Some? ==> reserve.value.Finite? && reserve.value.v >= 0)
      && (maxOutputTokens.Some? ==> maxOutputTokens.value.Finite? && maxOutputTokens.value.v > 0)
      && contextLength.Some? && contextLength.value.Finite?
      && (reserve.Some? ==> contextLength.value.v == v + reserve.value.v)
      && (reserve == None && maxOutputTokens == None ==> contextLength.value.v == v + 20_000)
      && (reserve == None && maxOutputTokens.Some? && maxOutputTokens.value.v <= 20_000 ==>
           contextLength.value.v == v + maxOutputTokens.value.v)
      && (reserve == None && maxOutputTokens.Some? && maxOutputTokens.value.v > 20_000 ==>
           contextLength.value.v == v + 20_000)
  {}

  // ------------------------------------------------------------------------------- one call's inputs

  datatype StepInfo = StepInfo(messageCount: nat, reported: Option<nat>)

  /** What a limits lookup does: fail, find no usable window, or find a budget. */
  datatype Lookup = Throws | Found(usable: Option<int>)

  datatype Summary = Threw | Blank | Text(summary: string)

  /** The summarizer model, given the pruned older prefix and the summary it is to update. */
  type Summarizer = (seq<Message>, Option<string>) -> Summary

  datatype Call = Call(
    messages: seq<Message>, steps: seq<StepInfo>, json: Serializer, keepLastSteps: int,
    first: Lookup, second: Lookup, summarizer: Summarizer)

  datatype Outcome = Pass | Rewrite(messages: seq<Message>) | Reject

  /** Messages of the last `k` steps together. */
  function LastCounts(steps: seq<StepInfo>, k: int): nat {
    if k <= 0 || steps == [] then 0
    else steps[|steps| - 1].messageCount + LastCounts(steps[..|steps| - 1], k - 1)
  }

  function LiveTokens(c: Call): nat {
    var estimated := EstimateTokens(c.messages, c.json);
    if c.steps == [] || c.steps[|c.steps| - 1].reported == None then estimated
    else
      var last := c.steps[|c.steps| - 1];
      var n := last.messageCount;
      var since := if n == 0 then [] else c.messages[if n <= |c.messages| then |c.messages| - n else 0..];
      var grounded := last.reported.value + EstimateTokens(since, c.json);
      if grounded >= estimated then grounded else estimated
  }

  /** Tokens the estimate can not see: the system prompt and the tool schemas. */
  function Overhead(c: Call): int { LiveTokens(c) - EstimateTokens(c.messages, c.json) }

  predicate Fits(ms: seq<Message>, c: Call, usable: int) {
    EstimateTokens(ms, c.json) + Overhead(c) < usable
  }

  // ------------------------------------------------------------------------------- hard truncation

  predicate LegalCut(body: seq<Message>, i: nat)
    requires i <= |body|
  {
    i == 0 || i == |body| || body[i].role != Tool
  }

  /** From cut `i` on: the first legal candidate that fits, else the smallest one built. */
  function TruncateFrom(
      head: seq<Message>, body: seq<Message>, fits: seq<Message> -> bool, i: nat, smallest: seq<Message>)
    : seq<Message>
    requires i <= |body| + 1
    decreases |body| + 1 - i
  {
    if i > |body| then smallest
    else if 0 < i < |body| && body[i].role == Tool then TruncateFrom(head, body, fits, i + 1, smallest)
    else
      var candidate := head + body[i..];
      if candidate == [] then smallest
      else if fits(candidate) then candidate
      else TruncateFrom(head, body, fits, i + 1, candidate)
  }

  function Truncate(ms: seq<Message>, fits: seq<Message> -> bool, keepLeading: nat): seq<Message> {
    var clamp := if keepLeading <= |ms| then keepLeading else |ms|;
    TruncateFrom(ms[..clamp], ms[clamp..], fits, 0, ms[..clamp])
  }

  /** The result is the candidate at cut `i`: the longest legal one that fits, or the shortest when none fits. */
  ghost predicate BestCut(
      head: seq<Message>, body: seq<Message>, fits: seq<Message> -> bool, from: nat, r: seq<Message>, i: nat) {
    && from <= i <= |body| && LegalCut(body, i) && r == head + body[i..] && r != []
    && (forall k :: from <= k < i && LegalCut(body, k) ==> !fits(head + body[k..]))
    && (fits(r) || forall k :: i < k <= |body| && LegalCut(body, k) ==> head + body[k..] == [])
  }

  /** Some legal cut from `from` on leaves something. */
  ghost predicate LeavesSome(head: seq<Message>, body: seq<Message>, from: nat) {
    exists k :: from <= k <= |body| && LegalCut(body, k) && head + body[k..] != []
  }

  lemma LeavesSomeStep(head: seq<Message>, body: seq<Message>, from: nat)
    requires from <= |body|
    ensures LeavesSome(head, body, from) <==>
      (LegalCut(body, from) && head + body[from..] != []) || LeavesSome(head, body, from + 1)
    ensures head + body[from..] == [] ==> !LeavesSome(head, body, from + 1)
  {
    hide LegalCut;
  }

  lemma TruncateStep(head: seq<Message>, body: seq<Message>, fits: seq<Message> -> bool, i: nat, smallest: seq<Message>)
    requires i <= |body|
    ensures var candidate := head + body[i..];
      TruncateFrom(head, body, fits, i, smallest) ==
        if !LegalCut(body, i) then TruncateFrom(head, body, fits, i + 1, smallest)
        else if candidate == [] then smallest
        else if fits(candidate) then candidate
        else TruncateFrom(head, body, fits, i + 1, candidate)
  {}

  lemma {:induction false} TruncateIsBest(
      head: seq<Message>, body: seq<Message>, fits: seq<Message> -> bool, i: nat, smallest: seq<Message>)
      returns (cut: nat)
    requires i <= |body| + 1 && LeavesSome(head, body, i)
    ensures BestCut(head, body, fits, i, TruncateFrom(head, body, fits, i, smallest), cut)
    decreases |body| + 1 - i
  {
    assert i <= |body|;
    hide LegalCut, LeavesSome, TruncateFrom, BestCut;
    LeavesSomeStep(head, body, i);
    TruncateStep(head, body, fits, i, smallest);
    var candidate := head + body[i..];
    if !LegalCut(body, i) {
      cut := TruncateIsBest(head, body, fits, i + 1, smallest);
      BestLater(head, body, fits, i, TruncateFrom(head, body, fits, i + 1, smallest), cut);
    } else if fits(candidate) {
      cut := i;
      BestHere(head, body, fits, i);
    } else if LeavesSome(head, body, i + 1) {
      cut := TruncateIsBest(head, body, fits, i + 1, candidate);
      BestLater(head, body, fits, i, TruncateFrom(head, body, fits, i + 1, candidate), cut);
    } else {
      cut := i;
      NoneLeft(head, body, i + 1);
      NothingSmaller(head, body, fits, i + 1, candidate);
      BestHere(head, body, fits, i);
    }
  }

  lemma BestLater(
      head: seq<Message>, body: seq<Message>, fits: seq<Message> -> bool, i: nat, r: seq<Message>, cut: nat)
    requires i <= |body| && BestCut(head, body, fits, i + 1, r, cut)
    requires LegalCut(body, i) ==> !fits(head + body[i..])
    ensures BestCut(head, body, fits, i, r, cut)
  {
    hide LegalCut;
  }

  lemma BestHere(head: seq<Message>, body: seq<Message>, fits: seq<Message> -> bool, i: nat)
    requires i <= |body| && LegalCut(body, i) && head + body[i..] != []
    requires fits(head + body[i..]) || forall k :: i < k <= |body| && LegalCut(body, k) ==> head + body[k..] == []
    ensures BestCut(head, body, fits, i, head + body[i..], i)
  {
    hide LegalCut;
  }

  lemma NoneLeft(head: seq<Message>, body: seq<Message>, from: nat)
    requires !LeavesSome(head, body, from)
    ensures forall k :: from <= k <= |body| && LegalCut(body, k) ==> head + body[k..] == []
  {
    hide LegalCut;
  }

  lemma {:induction false} NothingSmaller(
    head: seq<Message>, body: seq<Message>, fits: seq<Message> -> bool, i: nat, smallest: seq<Message>)
    requires i <= |body| + 1
    requires forall k :: i <= k <= |body| && LegalCut(body, k) ==> head + body[k..] == []
    ensures TruncateFrom(head, body, fits, i, smallest) == smallest
    decreases |body| + 1 - i
  {
    if i <= |body| && !LegalCut(body, i) {
      NothingSmaller(head, body, fits, i + 1, smallest);
    }
  }

  /** For a non-empty context: the longest legal remainder that fits, and the shortest when none does. */
  lemma TruncateBest(ms: seq<Message>, fits: seq<Message> -> bool, keepLeading: nat) returns (cut: nat)
    requires ms != [] && keepLeading <= |ms|
    ensures BestCut(ms[..keepLeading], ms[keepLeading..], fits, 0, Truncate(ms, fits, keepLeading), cut)
  {
    var head, body := ms[..keepLeading], ms[keepLeading..];
    assert head + body[0..] == ms;
    assert LegalCut(body, 0);
    assert LeavesSome(head, body, 0);
    cut := TruncateIsBest(head, body, fits, 0, head);
  }

  method TruncateOldestToFit(
      messages: seq<Message>, fits: seq<Message> -> bool, keepLeading: nat) returns (r: seq<Message>)
    ensures r == Truncate(messages, fits, keepLeading)
  {
    var clamp := if keepLeading <= |messages| then keepLeading else |messages|;
    var head, body := messages[..clamp], messages[clamp..];
    var smallest := head;
    var i := 0;
    while i <= |body|
      invariant 0 <= i <= |body| + 1
      invariant TruncateFrom(head, body, fits, i, smallest) == Truncate(messages, fits, keepLeading)
    {
      if 0 < i < |body| && body[i].role == Tool {
        i := i + 1;
        continue;
      }
      var candidate := head + body[i..];
      if |candidate| == 0 { break; }
      smallest := candidate;
      if fits(candidate) { return candidate; }
      i := i + 1;
    }
    return smallest;
  }

  // ----------------------------------------------------------------------------------- the decision

  const SUMMARY_HEADER := "Earlier conversation was summarized to fit the context window. Continue the task from this summary — do not wrap up early or re-plan from scratch."

  function SummaryMessage(summary: string): Message {
    Message(User, Str(SUMMARY_HEADER + "\n\n" + summary))
  }

  function FirstUser(ms: seq<Message>): (m: Option<Message>)
    ensures m.Some? ==> m.value.role == User && m.value in ms
  {
    if ms == [] then None
    else if ms[0].role == User then Some(ms[0])
    else FirstUser(ms[1..])
  }

  function Fitting(c: Call, usable: int): seq<Message> -> bool {
    ms => Fits(ms, c, usable)
  }

  /** The context that replaces the older prefix by a summary, cut down when it is still too big. */
  function Summarized(
      older: seq<Message>, tail: seq<Message>, summary: string, fits: seq<Message> -> bool): seq<Message> {
    var brief := FirstUser(older);
    var tailWithSummary := [SummaryMessage(summary)] + tail;
    var compacted := if brief.Some? then [brief.value] + tailWithSummary else tailWithSummary;
    if fits(compacted) then compacted
    else
      var truncated := Truncate(compacted, fits, if brief.Some? then 2 else 1);
      if brief.Some? && !fits(truncated) then Truncate(tailWithSummary, fits, 1) else truncated
  }

  const FREED_THRESHOLD := 20_000

  function SplitAt(c: Call): nat {
    var tailCount := LastCounts(c.steps, c.keepLastSteps);
    if tailCount <= |c.messages| then |c.messages| - tailCount else 0
  }

  /** Prune, then summarize, then cut: each result is used only when it fits. */
  function Shrink(c: Call, usable: int, prior: Option<string>): (Outcome, Option<string>) {
    var fits := Fitting(c, usable);
    var splitAt := SplitAt(c);
    var (pruned, t) := Pruned(c.messages, splitAt, DEFAULT);
    if t.freed >= FREED_THRESHOLD && fits(pruned) then (Rewrite(pruned), prior)
    else
      match c.summarizer(pruned[..splitAt], prior)
      case Text(summary) =>
        (Rewrite(Summarized(c.messages[..splitAt], c.messages[splitAt..], summary, fits)), Some(summary))
      case _ =>
        if fits(pruned) then (Rewrite(pruned), prior) else (Rewrite(Truncate(pruned, fits, 0)), prior)
  }

  /** The whole call without the cache: what is sent, and the summary to update next time. */
  function Compute(c: Call, prior: Option<string>): (Outcome, Option<string>) {
    if c.messages == [] then (Pass, prior)
    else
    match c.first
    case Throws => (Pass, prior)
    case Found(None) => (Reject, prior)
    case Found(Some(usable)) =>
      if LiveTokens(c) < usable || c.steps == [] || SplitAt(c) == 0 then (Pass, prior)
      else
        match c.second
        case Found(Some(usable2)) => if usable2 <= 0 then (Reject, prior) else Shrink(c, usable2, prior)
        case _ => (Reject, prior)
  }

  // --------------------------------------------------------------------------------- its guarantees

  /** All the messages counted by some steps. */
  function TotalCount(steps: seq<StepInfo>): nat {
    if steps == [] then 0 else steps[0].messageCount + TotalCount(steps[1..])
  }

  lemma {:induction false} LastCountsAre(gone: seq<StepInfo>, kept: seq<StepInfo>, k: int)
    requires if gone == [] then k >= |kept| else k == |kept|
    ensures LastCounts(gone + kept, k) == TotalCount(kept)
    decreases |kept|
  {
    var steps := gone + kept;
    if kept == [] {
      assert steps == gone;
    } else {
      var n := |kept| - 1;
      assert steps[..|steps| - 1] == gone + kept[..n];
      LastCountsAre(gone, kept[..n], k - 1);
      TotalCountSnoc(kept[..n], kept[n]);
      assert kept == kept[..n] + [kept[n]];
    }
  }

  lemma {:induction false} TotalCountSnoc(steps: seq<StepInfo>, s: StepInfo)
    ensures TotalCount(steps + [s]) == TotalCount(steps) + s.messageCount
    decreases |steps|
  {
    if steps == [] {
      assert steps + [s] == [s] && [s][1..] == [];
      assert TotalCount([]) == 0;
    } else {
      assert (steps + [s])[1..] == steps[1..] + [s];
      TotalCountSnoc(steps[1..], s);
    }
  }

  /** `tail` is what the last `keepLastSteps` steps appended, and `older` everything in front of it. */
  ghost predicate Parted(c: Call, older: seq<Message>, tail: seq<Message>) {
    && c.messages == older + tail
    && exists gone, kept ::
      && c.steps == gone + kept && LastOnes(gone, kept, c.keepLastSteps)
      && (|tail| == TotalCount(kept) || (older == [] && |tail| < TotalCount(kept)))
  }

  predicate LastOnes(gone: seq<StepInfo>, kept: seq<StepInfo>, k: int) {
    if k < 0 then kept == [] else |kept| == k || (gone == [] && |kept| <= k)
  }

  lemma PartedAt(c: Call, older: seq<Message>, tail: seq<Message>)
    requires Parted(c, older, tail)
    ensures SplitAt(c) == |older|
  {
    var gone, kept :| && c.steps == gone + kept && LastOnes(gone, kept, c.keepLastSteps)
      && (|tail| == TotalCount(kept) || (older == [] && |tail| < TotalCount(kept)));
    if c.keepLastSteps < 0 {
      assert TotalCount([]) == 0;
    } else {
      LastCountsAre(gone, kept, c.keepLastSteps);
    }
  }

  /** `block` is what the last step appended: the end of the context, or all of it when it counts more. */
  predicate LastBlock(c: Call, front: seq<Message>, block: seq<Message>) {
    && c.messages == front + block
    && c.steps != []
    && var n := c.steps[|c.steps| - 1].messageCount; |block| == n || (front == [] && |block| < n)
  }

  /** The tokens the provider reported for the last call. */
  function Reported(c: Call): Option<nat> {
    if c.steps == [] then None else c.steps[|c.steps| - 1].reported
  }

  /**
   * With a known window a call passes exactly when there is no step or nothing older than the kept
   * steps, or when the context is estimated under the budget and so is what the provider reported
   * together with the messages appended since. Else it is rewritten, given a window at the second lookup.
   */
  lemma PassesIff(
      c: Call, prior: Option<string>, usable: int,
      older: seq<Message>, tail: seq<Message>, front: seq<Message>, block: seq<Message>)
    requires c.first == Found(Some(usable)) && Parted(c, older, tail)
    requires c.steps != [] ==> LastBlock(c, front, block)
    ensures Compute(c, prior).0.Pass? <==>
      || c.steps == [] || older == []
      || (EstimateTokens(c.messages, c.json) < usable
          && (Reported(c).Some? ==> Reported(c).value + EstimateTokens(block, c.json) < usable))
    ensures Compute(c, prior).0.Rewrite? <==>
      !Compute(c, prior).0.Pass? && c.second.Found? && c.second.usable.Some? && c.second.usable.value > 0
    ensures Compute(c, prior).0.Pass? ==> Compute(c, prior).1 == prior
  {
    hide Pruned, Truncate, Summarized, Parted, EstimateTokens;
    PartedAt(c, older, tail);
    if c.steps != [] && Reported(c).Some? { SinceIsBlock(c, front, block); }
  }

  /** Without a known window: a failed lookup lets the call pass, a missing window rejects it. */
  lemma UnknownWindow(c: Call, prior: Option<string>)
    requires c.messages != [] && (c.first.Throws? || c.first.usable == None)
    ensures Compute(c, prior) == (if c.first.Throws? then Pass else Reject, prior)
  {}

  lemma SinceIsBlock(c: Call, front: seq<Message>, block: seq<Message>)
    requires LastBlock(c, front, block) && Reported(c).Some?
    ensures var estimated := EstimateTokens(c.messages, c.json);
      var grounded := Reported(c).value + EstimateTokens(block, c.json);
      LiveTokens(c) == if grounded >= estimated then grounded else estimated
  {
    hide EstimateTokens;
    var n := c.steps[|c.steps| - 1].messageCount;
    if n == 0 {
      assert block == [];
    } else {
      assert c.messages[if n <= |c.messages| then |c.messages| - n else 0..] == block;
    }
  }

  /** A candidate fits when its estimate and the part of the report no estimate sees are under the budget. */
  lemma FitsIff(ms: seq<Message>, c: Call, usable: int, front: seq<Message>, block: seq<Message>)
    requires c.steps != [] ==> LastBlock(c, front, block)
    ensures Fits(ms, c, usable) <==>
      && EstimateTokens(ms, c.json) < usable
      && (Reported(c).Some? ==>
            EstimateTokens(ms, c.json) + Reported(c).value + EstimateTokens(block, c.json)
            < usable + EstimateTokens(c.messages, c.json))
  {
    hide EstimateTokens;
    if Reported(c).Some? { SinceIsBlock(c, front, block); }
  }

  /** The estimate is the number of characters by four, rounded up; characters add up over messages. */
  lemma EstimateIsCeiling(ms: seq<Message>, json: Serializer, m: Message)
    ensures Chars(ms, json) <= 4 * EstimateTokens(ms, json) < Chars(ms, json) + 4
    ensures Chars([], json) == 0
    ensures Chars(ms + [m], json) == Chars(ms, json) + match m.content
                                     case Str(text) => |text|
                                     case Parts(parts) => json(parts)
  {
    assert (ms + [m])[..|ms + [m]| - 1] == ms;
  }

  /** The trigger fires exactly when the live context itself fails the later fit check. */
  lemma TriggerIffTooBig(c: Call, usable: int)
    ensures LiveTokens(c) >= usable <==> !Fits(c.messages, c, usable)
  {}

  /** With one budget for trigger and check: a context that fits is never rewritten. */
  lemma FittingContextPasses(c: Call, prior: Option<string>, usable: int)
    requires c.first == Found(Some(usable)) && Fits(c.messages, c, usable)
    ensures Compute(c, prior) == (Pass, prior)
  {}

  /**
   * With a known window a call passes exactly when there is nothing to give up or the context fits the
   * later check; otherwise, with a window at the second lookup too, it is rewritten.
   */
  lemma CompactsIffTooBig(c: Call, prior: Option<string>, usable: int)
    requires c.first == Found(Some(usable))
    ensures Compute(c, prior).0.Pass? <==> c.steps == [] || SplitAt(c) == 0 || Fits(c.messages, c, usable)
    ensures Compute(c, prior).0.Rewrite? <==>
      !Compute(c, prior).0.Pass? && c.second.Found? && c.second.usable.Some? && c.second.usable.value > 0
  {
    hide Pruned, Truncate, Summarized;
    TriggerIffTooBig(c, usable);
  }

  lemma {:induction false} CharsConcat(a: seq<Message>, b: seq<Message>, json: Serializer)
    ensures Chars(a + b, json) == Chars(a, json) + Chars(b, json)
    decreases |b|
  {
    if b == [] {
      assert a + b == a;
    } else {
      CharsConcat(a, b[..|b| - 1], json);
      assert (a + b)[..|a + b| - 1] == a + b[..|b| - 1];
    }
  }

  /** A part of a context is never estimated above the whole. */
  lemma PartFits(a: seq<Message>, b: seq<Message>, c: Call, usable: int)
    requires Fits(a + b, c, usable)
    ensures Fits(a, c, usable) && Fits(b, c, usable)
  {
    CharsConcat(a, b, c.json);
  }

  /** A summarized context fits unless the summary alone does not; then the summary alone is what is sent. */
  lemma SummarizedFitsIff(older: seq<Message>, tail: seq<Message>, summary: string, c: Call, usable: int)
    ensures var r := Summarized(older, tail, summary, Fitting(c, usable));
      && (Fits(r, c, usable) <==> Fits([SummaryMessage(summary)], c, usable))
      && (!Fits(r, c, usable) ==> r == [SummaryMessage(summary)])
  {
    hide Truncate, Fits;
    var fits, s := Fitting(c, usable), SummaryMessage(summary);
    var brief := FirstUser(older);
    var tailWithSummary := [s] + tail;
    var compacted := if brief.Some? then [brief.value] + tailWithSummary else tailWithSummary;
    var r := Summarized(older, tail, summary, fits);
    SummaryInside(compacted, s, if brief.Some? then 1 else 0, c, usable);
    if !fits(compacted) {
      var n := if brief.Some? then 2 else 1;
      var cut := TruncateBest(compacted, fits, n);
      var head := compacted[..n];
      assert head[n - 1] == s;
      var truncated := Truncate(compacted, fits, n);
      assert truncated[n - 1] == s;
      SummaryInside(truncated, s, n - 1, c, usable);
      var cut2 := TruncateBest(tailWithSummary, fits, 1);
      assert tailWithSummary[..1] == [s] && tailWithSummary[1..] == tail;
      var shortest := Truncate(tailWithSummary, fits, 1);
      SummaryInside(shortest, s, 0, c, usable);
      SummaryAlone([s], tail, fits, shortest, cut2);
      if brief == None {
        assert compacted == tailWithSummary;
      }
    }
  }

  lemma SummaryInside(ms: seq<Message>, s: Message, k: nat, c: Call, usable: int)
    requires k < |ms| && ms[k] == s
    ensures Fits(ms, c, usable) ==> Fits([s], c, usable)
  {
    hide Fits;
    if Fits(ms, c, usable) {
      assert ms == ms[..k] + ms[k..] && ms[k..] == [s] + ms[k + 1..];
      PartFits(ms[..k], ms[k..], c, usable);
      PartFits([s], ms[k + 1..], c, usable);
    }
  }

  /** When the cut of everything behind the head is reached without a fit, only the head is left. */
  lemma SummaryAlone(head: seq<Message>, body: seq<Message>, fits: seq<Message> -> bool, r: seq<Message>, cut: nat)
    requires head != [] && BestCut(head, body, fits, 0, r, cut)
    ensures fits(r) || (r == head && !fits(head))
  {
    assert LegalCut(body, |body|) && head + body[|body|..] == head;
  }

  /** What the summarizer answers for the older part of a call, pruned. */
  function AnswerFor(c: Call, prior: Option<string>): Summary {
    PrunedLength(c.messages, SplitAt(c), DEFAULT);
    c.summarizer(Pruned(c.messages, SplitAt(c), DEFAULT).0[..SplitAt(c)], prior)
  }

  /**
   * Every rewritten context is strictly under the budget, unless even the shortest legal one is not:
   * the summary alone, or without a summary the shortest suffix that starts on a non-tool message.
   */
  lemma RewriteFits(c: Call, prior: Option<string>, usable: int)
    requires Compute(c, prior).0.Rewrite? && c.second == Found(Some(usable))
    ensures var r := Compute(c, prior).0.messages;
      Fits(r, c, usable)
      || (exists s :: r == [SummaryMessage(s)] && AnswerFor(c, prior) == Summary.Text(s))
      || (var pruned := Pruned(c.messages, SplitAt(c), DEFAULT).0;
          && (exists i :: 0 <= i < |pruned| && LegalCut(pruned, i) && r == pruned[i..])
          && forall i :: 0 <= i < |pruned| && LegalCut(pruned, i) ==>
               !Fits(pruned[i..], c, usable) && |r| <= |pruned[i..]|)
  {
    hide Fits, Pruned, Truncate, Summarized;
    var splitAt := SplitAt(c);
    var (pruned, t) := Pruned(c.messages, splitAt, DEFAULT);
    PrunedLength(c.messages, splitAt, DEFAULT);
    match c.summarizer(pruned[..splitAt], prior) {
      case Text(summary) =>
        SummarizedFitsIff(c.messages[..splitAt], c.messages[splitAt..], summary, c, usable);
      case _ =>
        TruncatedFits(pruned, c, usable);
    }
  }

  lemma PrunedLength(ms: seq<Message>, splitAt: nat, p: Policy)
    ensures |Pruned(ms, splitAt, p).0| == |ms|
  {}

  lemma TruncatedFits(pruned: seq<Message>, c: Call, usable: int)
    requires pruned != []
    ensures var r := Truncate(pruned, Fitting(c, usable), 0);
      && (exists i :: 0 <= i < |pruned| && LegalCut(pruned, i) && r == pruned[i..])
      && (Fits(r, c, usable) || forall i :: 0 <= i < |pruned| && LegalCut(pruned, i) ==>
            !Fits(pruned[i..], c, usable) && |r| <= |pruned[i..]|)
      && (Fits(r, c, usable) ==>
          forall i :: 0 <= i < |pruned| && LegalCut(pruned, i) && Fits(pruned[i..], c, usable) ==>
            |pruned[i..]| <= |r|)
  {
    hide Fits, Truncate, BestCut, LegalCut;
    var cut := TruncateBest(pruned, Fitting(c, usable), 0);
    assert pruned[..0] == [] && pruned[0..] == pruned;
    BestSuffix(pruned, Fitting(c, usable), Truncate(pruned, Fitting(c, usable), 0), cut);
  }

  /** A best cut without a head, in terms of suffixes. */
  lemma BestSuffix(body: seq<Message>, fits: seq<Message> -> bool, r: seq<Message>, cut: nat)
    requires BestCut([], body, fits, 0, r, cut)
    ensures cut < |body| && LegalCut(body, cut) && r == body[cut..]
    ensures forall i :: 0 <= i < cut && LegalCut(body, i) ==> !fits(body[i..])
    ensures fits(r) || forall i :: 0 <= i < |body| && LegalCut(body, i) ==> i <= cut
  {
    hide LegalCut;
    assert [] + body[cut..] == body[cut..] && body[|body|..] == [];
    forall i | 0 <= i < cut && LegalCut(body, i) ensures !fits(body[i..]) {
      assert [] + body[i..] == body[i..];
    }
    forall i | 0 <= i < |body| && LegalCut(body, i) ensures fits(r) || i <= cut {
      assert [] + body[i..] == body[i..] != [];
    }
  }

  // ------------------------------------------------------------------- what a rewrite consists of

  /** The first user message is found exactly where it stands, and none only when there is none. */
  lemma {:induction false} FirstUserIff(ms: seq<Message>)
    ensures FirstUser(ms).Some? ==> exists k :: FirstUserAt(ms, k) && FirstUser(ms) == Some(ms[k])
    ensures FirstUser(ms) == None ==> NoUser(ms)
    decreases |ms|
  {
    if ms != [] {
      if ms[0].role == User {
        assert FirstUserAt(ms, 0);
      } else {
        FirstUserIff(ms[1..]);
        if k :| FirstUserAt(ms[1..], k) && FirstUser(ms[1..]) == Some(ms[1..][k]) {
          assert FirstUserAt(ms, k + 1);
        }
      }
    }
  }

  predicate NoUser(ms: seq<Message>) {
    forall m :: m in ms ==> m.role != User
  }

  predicate FirstUserAt(ms: seq<Message>, k: int) {
    0 <= k < |ms| && ms[k].role == User && forall j :: 0 <= j < k ==> ms[j].role != User
  }

  /** Behind some head, a legal remainder of the messages fits. */
  ghost predicate SomeFits(head: seq<Message>, body: seq<Message>, fits: seq<Message> -> bool) {
    exists i :: 0 <= i <= |body| && LegalCut(body, i) && fits(head + body[i..])
  }

  ghost predicate IsBest(head: seq<Message>, body: seq<Message>, fits: seq<Message> -> bool, r: seq<Message>) {
    exists cut :: BestCut(head, body, fits, 0, r, cut)
  }

  /**
   * The first user message, the summary and the longest legal end of the tail that fits behind the two; without
   * the brief when there is none or nothing fits behind it.
   */
  lemma SummarizedIsBest(older: seq<Message>, tail: seq<Message>, summary: string, fits: seq<Message> -> bool, k: nat)
    requires FirstUserAt(older, k) || (k == |older| && NoUser(older))
    ensures var s := Message(User, Str(SUMMARY_HEADER + "\n\n" + summary));
      var r := Summarized(older, tail, summary, fits);
      if k < |older| && SomeFits([older[k], s], tail, fits) then IsBest([older[k], s], tail, fits, r)
      else IsBest([s], tail, fits, r)
  {
    hide Truncate, BestCut, LegalCut;
    var s, r := SummaryMessage(summary), Summarized(older, tail, summary, fits);
    FirstUserIff(older);
    if k < |older| {
      assert older[k] in older;
      BriefFirst(older[k], s, tail, fits);
      SummaryFirst(s, tail, fits);
    } else {
      SummaryFirst(s, tail, fits);
    }
  }

  lemma SummaryFirst(s: Message, tail: seq<Message>, fits: seq<Message> -> bool)
    ensures IsBest([s], tail, fits, Truncate([s] + tail, fits, 1))
    ensures fits([s] + tail) ==> IsBest([s], tail, fits, [s] + tail)
  {
    hide Truncate;
    var cut := TruncateBest([s] + tail, fits, 1);
    assert ([s] + tail)[..1] == [s] && ([s] + tail)[1..] == tail;
    if fits([s] + tail) { WholeIsBest([s], tail, fits); }
  }

  lemma BriefFirst(brief: Message, s: Message, tail: seq<Message>, fits: seq<Message> -> bool)
    ensures var all := [brief] + ([s] + tail);
      && IsBest([brief, s], tail, fits, Truncate(all, fits, 2))
      && (fits(all) ==> IsBest([brief, s], tail, fits, all) && SomeFits([brief, s], tail, fits))
      && (fits(Truncate(all, fits, 2)) <==> SomeFits([brief, s], tail, fits))
  {
    hide Truncate;
    var all := [brief] + ([s] + tail);
    var cut := TruncateBest(all, fits, 2);
    assert all[..2] == [brief, s] && all[2..] == tail && all == [brief, s] + tail;
    if fits(all) { WholeIsBest([brief, s], tail, fits); }
  }

  lemma WholeIsBest(head: seq<Message>, body: seq<Message>, fits: seq<Message> -> bool)
    requires head != [] && fits(head + body)
    ensures IsBest(head, body, fits, head + body) && SomeFits(head, body, fits)
  {
    assert body[0..] == body;
    assert BestCut(head, body, fits, 0, head + body, 0);
  }

  /** An estimate and what the provider counts beyond it: under the budget with the report, or without one. */
  predicate Under(ms: seq<Message>, c: Call, block: seq<Message>, usable: int) {
    && EstimateTokens(ms, c.json) < usable
    && (Reported(c).Some? ==>
          EstimateTokens(ms, c.json) + Reported(c).value + EstimateTokens(block, c.json)
          < usable + EstimateTokens(c.messages, c.json))
  }

  /** One rewritten call and its parts, each named by what it is. */
  datatype Rewriting = Rewriting(
    older: seq<Message>, tail: seq<Message>, front: seq<Message>, block: seq<Message>,
    pruned: seq<Message>, answer: Summary, fits: seq<Message> -> bool)

  ghost predicate IsRewriting(w: Rewriting, c: Call, prior: Option<string>, usable: int) {
    && Parted(c, w.older, w.tail) && LastBlock(c, w.front, w.block)
    && w.pruned == Pruned(c.messages, |w.older|, Policy(40_000, 1_000)).0
    && |w.older| <= |w.pruned| && w.answer == c.summarizer(w.pruned[..|w.older|], prior)
    && forall ms :: w.fits(ms) <==> Under(ms, c, w.block, usable)
  }

  /** Tool output that the pruned context lost. */
  function Freed(w: Rewriting): int
    requires |w.older| <= |w.pruned|
  {
    Size(Visited(w.older, |w.older|)) - Size(Visited(w.pruned, |w.older|))
  }

  /**
   * What a rewrite is: the pruned context when that frees enough and is under the budget; else brief,
   * summary and end of the tail; without a summary the longest legal end of the pruned context.
   */
  lemma RewriteIs(c: Call, prior: Option<string>, usable: int, w: Rewriting)
    requires Compute(c, prior).0.Rewrite? && c.second == Found(Some(usable)) && IsRewriting(w, c, prior, usable)
    ensures var (out, prior') := Compute(c, prior);
      if Freed(w) >= 20_000 && w.fits(w.pruned) then out.messages == w.pruned && prior' == prior
      else if w.answer.Text? then prior' == Some(w.answer.summary) && IsSummarized(w, w.answer.summary, out.messages)
      else prior' == prior && IsBest([], w.pruned, w.fits, out.messages)
  {
    hide Under, Fits, Pruned, Truncate, Summarized, Visited, Parted, LastBlock, IsBest, SomeFits, IsSummarized;
    var split := |w.older|;
    PartedAt(c, w.older, w.tail);
    PartedWhole(c, w.older, w.tail);
    PrunedLength(c.messages, split, DEFAULT);
    PruneAccounts(c.messages, split, DEFAULT);
    VisitedFront(w.older, w.tail, split);
    forall ms ensures Fitting(c, usable)(ms) == w.fits(ms) {
      FitsIsUnder(ms, c, usable, w.front, w.block);
    }
    SummarizedSame(w, Fitting(c, usable));
    TruncatedSame(w.pruned, Fitting(c, usable), w.fits);
  }

  /** The brief, when `older` has one it fits with, the summary, and the longest end of the tail that fits. */
  ghost predicate IsSummarized(w: Rewriting, summary: string, r: seq<Message>) {
    var s := Message(User, Str(SUMMARY_HEADER + "\n\n" + summary));
    forall k :: FirstUserAt(w.older, k) || (k == |w.older| && NoUser(w.older)) ==>
      if k < |w.older| && SomeFits([w.older[k], s], w.tail, w.fits)
      then IsBest([w.older[k], s], w.tail, w.fits, r)
      else IsBest([s], w.tail, w.fits, r)
  }

  lemma PartedWhole(c: Call, older: seq<Message>, tail: seq<Message>)
    requires Parted(c, older, tail)
    ensures c.messages == older + tail && c.messages[..|older|] == older && c.messages[|older|..] == tail
  {}

  lemma {:induction false} VisitedFront(front: seq<Message>, rest: seq<Message>, n: nat)
    requires n <= |front|
    ensures Visited(front + rest, n) == Visited(front, n)
    decreases n
  {
    hide MessageResults;
    if n > 0 { VisitedFront(front, rest, n - 1); }
  }

  lemma FitsIsUnder(ms: seq<Message>, c: Call, usable: int, front: seq<Message>, block: seq<Message>)
    requires LastBlock(c, front, block)
    ensures Fits(ms, c, usable) <==> Under(ms, c, block, usable)
  {
    hide Fits, LastBlock, EstimateTokens;
    FitsIff(ms, c, usable, front, block);
  }

  lemma SummarizedSame(w: Rewriting, fits: seq<Message> -> bool)
    requires forall ms :: fits(ms) == w.fits(ms)
    ensures forall summary :: IsSummarized(w, summary, Summarized(w.older, w.tail, summary, fits))
  {
    hide Summarized, IsBest, SomeFits, FirstUserAt, NoUser;
    forall summary ensures IsSummarized(w, summary, Summarized(w.older, w.tail, summary, fits)) {
      var s, r := Message(User, Str(SUMMARY_HEADER + "\n\n" + summary)), Summarized(w.older, w.tail, summary, fits);
      forall k | FirstUserAt(w.older, k) || (k == |w.older| && NoUser(w.older))
        ensures 0 <= k <= |w.older|
        ensures if k < |w.older| && SomeFits([w.older[k], s], w.tail, w.fits)
                then IsBest([w.older[k], s], w.tail, w.fits, r)
                else IsBest([s], w.tail, w.fits, r)
      {
        FirstUserRange(w.older, k);
        SummarizedIsBest(w.older, w.tail, summary, fits, k);
        SameBest([s], w.tail, fits, w.fits, r);
        if k < |w.older| { SameBest([w.older[k], s], w.tail, fits, w.fits, r); }
      }
    }
  }

  lemma FirstUserRange(ms: seq<Message>, k: int)
    ensures FirstUserAt(ms, k) ==> 0 <= k < |ms|
  {}

  lemma SameBest(
      head: seq<Message>, body: seq<Message>, f: seq<Message> -> bool, g: seq<Message> -> bool, r: seq<Message>)
    requires forall ms :: f(ms) == g(ms)
    ensures IsBest(head, body, f, r) <==> IsBest(head, body, g, r)
    ensures SomeFits(head, body, f) <==> SomeFits(head, body, g)
  {
    hide LegalCut;
    if cut :| BestCut(head, body, f, 0, r, cut) { assert BestCut(head, body, g, 0, r, cut); }
    if cut :| BestCut(head, body, g, 0, r, cut) { assert BestCut(head, body, f, 0, r, cut); }
  }

  lemma TruncatedSame(pruned: seq<Message>, f: seq<Message> -> bool, g: seq<Message> -> bool)
    requires pruned != [] && forall ms :: f(ms) == g(ms)
    ensures IsBest([], pruned, g, Truncate(pruned, f, 0))
    ensures f(pruned) ==> IsBest([], pruned, g, pruned)
  {
    hide Truncate, BestCut;
    var cut := TruncateBest(pruned, f, 0);
    assert pruned[..0] == [] && pruned[0..] == pruned;
    SameBest([], pruned, f, g, Truncate(pruned, f, 0));
    if f(pruned) {
      WholeBest(pruned, f);
      SameBest([], pruned, f, g, pruned);
    }
  }

  lemma WholeBest(body: seq<Message>, fits: seq<Message> -> bool)
    requires body != [] && fits(body)
    ensures IsBest([], body, fits, body)
  {
    assert [] + body[0..] == body;
    assert BestCut([], body, fits, 0, body, 0);
  }
}
