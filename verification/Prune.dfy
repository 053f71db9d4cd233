/** The model-free prune pass: old, large tool results lose their payload, recent output is shielded. */
module Prune {
  import opened Messages

  const PLACEHOLDER := "[old tool result cleared — rerun the tool if needed]"

  /** Thresholds: how much recent output to shield, and the largest result not worth clearing. */
  datatype Policy = Policy(shield: nat, minResult: nat)
  const DEFAULT := Policy(40_000, 1_000)

  datatype Tally = Tally(shieldUsed: nat, freed: int, cleared: nat)
  const START := Tally(0, 0, 0)

  function PrunePart(part: Part, t: Tally, p: Policy): (Part, Tally) {
    if !part.ToolResult? then (part, t)
    else
      var size := OutputSize(part.output);
      if size <= p.minResult || t.shieldUsed < p.shield then (part, t.(shieldUsed := t.shieldUsed + size))
      else (part.(output := Text(PLACEHOLDER)), t.(freed := t.freed + size - |PLACEHOLDER|, cleared := t.cleared + 1))
  }

  function PruneParts(parts: seq<Part>, t: Tally, p: Policy): (r: (seq<Part>, Tally))
    ensures |r.0| == |parts|
  {
    if parts == [] then ([], t)
    else
      var (part, t1) := PrunePart(parts[0], t, p);
      var (rest, t2) := PruneParts(parts[1..], t1, p);
      ([part] + rest, t2)
  }

  predicate Prunable(m: Message) { m.role == Tool && m.content.Parts? }

  function PruneMessage(m: Message, t: Tally, p: Policy): (Message, Tally) {
    if !Prunable(m) then (m, t)
    else
      var (parts, t1) := PruneParts(m.content.parts, t, p);
      (m.(content := Parts(parts)), t1)
  }

  /** The first `n` messages, newest first. */
  function PruneMessages(ms: seq<Message>, n: nat, t: Tally, p: Policy): (r: (seq<Message>, Tally))
    requires n <= |ms|
    ensures |r.0| == |ms|
    decreases n
  {
    if n == 0 then (ms, t)
    else
      var (m, t1) := PruneMessage(ms[n - 1], t, p);
      PruneMessages(ms[n - 1 := m], n - 1, t1, p)
  }

  function Pruned(ms: seq<Message>, splitAt: nat, p: Policy): (seq<Message>, Tally) {
    PruneMessages(ms, if splitAt <= |ms| then splitAt else |ms|, START, p)
  }

  // ------------------------------------------------------------------------------ what stays

  /** Either untouched, or a tool result that kept its id and lost its payload. */
  predicate KeptOrCleared(part: Part, part': Part) {
    part' == part || (part.ToolResult? && part' == ToolResult(part.id, Text(PLACEHOLDER)))
  }

  lemma {:induction false} PartsKeepIds(parts: seq<Part>, t: Tally, p: Policy)
    ensures forall k :: 0 <= k < |parts| ==> KeptOrCleared(parts[k], PruneParts(parts, t, p).0[k])
    decreases |parts|
  {
    if parts != [] {
      PartsKeepIds(parts[1..], PrunePart(parts[0], t, p).1, p);
    }
  }

  lemma MessageKeepsShape(m: Message, t: Tally, p: Policy)
    ensures SameShape(m, PruneMessage(m, t, p).0)
    ensures !Prunable(m) ==> PruneMessage(m, t, p).0 == m
  {
    if Prunable(m) {
      var parts, parts' := m.content.parts, PruneParts(m.content.parts, t, p).0;
      PartsKeepIds(parts, t, p);
      hide PruneParts, PrunePart;
      assert forall k :: 0 <= k < |parts| ==> parts'[k].ToolResult? == parts[k].ToolResult?;
      assert forall k :: 0 <= k < |parts| && parts[k].ToolResult? ==> parts'[k].id == parts[k].id;
    }
  }

  /**
   * Pruning keeps the number of messages, their roles, calls and answered ids, every message that is
   * not a tool message, and everything from the split on.
   */
  lemma {:induction false} PruneKeeps(ms: seq<Message>, n: nat, t: Tally, p: Policy)
    requires n <= |ms|
    ensures var out := PruneMessages(ms, n, t, p).0;
      && (forall i :: 0 <= i < |ms| ==> SameShape(ms[i], out[i]))
      && (forall i :: 0 <= i < |ms| && (i >= n || !Prunable(ms[i])) ==> out[i] == ms[i])
    decreases n
  {
    hide SameShape, PruneMessage;
    forall m ensures SameShape(m, m) { ShapeReflexive(m); }
    if n > 0 {
      var (m, t1) := PruneMessage(ms[n - 1], t, p);
      MessageKeepsShape(ms[n - 1], t, p);
      PruneKeeps(ms[n - 1 := m], n - 1, t1, p);
    }
  }

  lemma ShapeReflexive(m: Message)
    ensures SameShape(m, m)
  {}

  lemma PruneKeepsPaired(ms: seq<Message>, splitAt: nat, p: Policy)
    requires Paired(ms)
    ensures Paired(Pruned(ms, splitAt, p).0)
  {
    hide PruneMessages, SameShape;
    var n := if splitAt <= |ms| then splitAt else |ms|;
    PruneKeeps(ms, n, START, p);
    SameShapePaired(ms, Pruned(ms, splitAt, p).0);
  }

  // ---------------------------------------------------------------------- which results are cleared

  function PartResults(parts: seq<Part>): seq<Output> {
    if parts == [] then []
    else (if parts[0].ToolResult? then [parts[0].output] else []) + PartResults(parts[1..])
  }

  function MessageResults(m: Message): seq<Output> {
    if Prunable(m) then PartResults(m.content.parts) else []
  }

  /** The tool results of the first `n` messages in the order they are visited. */
  function Visited(ms: seq<Message>, n: nat): seq<Output>
    requires n <= |ms|
  {
    if n == 0 then [] else MessageResults(ms[n - 1]) + Visited(ms, n - 1)
  }

  /** With `used` shielded so far: clear the results that are large and past the shield. */
  function Decide(results: seq<Output>, used: nat, p: Policy): (cleared: seq<bool>)
    ensures |cleared| == |results|
  {
    if results == [] then []
    else
      var size := OutputSize(results[0]);
      var clear := size > p.minResult && used >= p.shield;
      [clear] + Decide(results[1..], if clear then used else used + size, p)
  }

  /** Output kept verbatim. */
  function Kept(results: seq<Output>, cleared: seq<bool>): nat
    requires |results| == |cleared|
  {
    if results == [] then 0
    else Kept(results[1..], cleared[1..]) + if cleared[0] then 0 else OutputSize(results[0])
  }

  function Clear(results: seq<Output>, cleared: seq<bool>): (r: seq<Output>)
    requires |results| == |cleared|
    ensures |r| == |results|
    ensures forall k :: 0 <= k < |results| ==> r[k] == if cleared[k] then Text(PLACEHOLDER) else results[k]
  {
    if results == [] then []
    else [if cleared[0] then Text(PLACEHOLDER) else results[0]] + Clear(results[1..], cleared[1..])
  }

  function Size(results: seq<Output>): nat {
    if results == [] then 0 else OutputSize(results[0]) + Size(results[1..])
  }

  /** A result is cleared exactly when it is large and the output kept before it fills the shield. */
  lemma {:induction false} ClearedIff(results: seq<Output>, used: nat, p: Policy, k: nat)
    requires k < |results|
    ensures Decide(results, used, p)[k] <==>
      && OutputSize(results[k]) > p.minResult
      && used + Kept(results[..k], Decide(results, used, p)[..k]) >= p.shield
    decreases |results|
  {
    var cleared := Decide(results, used, p);
    if k > 0 {
      var size := OutputSize(results[0]);
      ClearedIff(results[1..], if cleared[0] then used else used + size, p, k - 1);
      assert results[..k][1..] == results[1..][..k - 1] && cleared[..k][1..] == cleared[1..][..k - 1];
    }
  }

  lemma {:induction false} DecideConcat(a: seq<Output>, b: seq<Output>, used: nat, p: Policy)
    ensures var first := Decide(a, used, p);
      Decide(a + b, used, p) == first + Decide(b, used + Kept(a, first), p)
    decreases |a|
  {
    if a == [] {
      assert a + b == b;
    } else {
      var first := Decide(a, used, p);
      var size := OutputSize(a[0]);
      assert (a + b)[1..] == a[1..] + b;
      DecideConcat(a[1..], b, if first[0] then used else used + size, p);
      assert first[1..] == Decide(a[1..], if first[0] then used else used + size, p);
    }
  }

  lemma SumsConcat(a: seq<Output>, b: seq<Output>, x: seq<bool>, y: seq<bool>)
    requires |a| == |x| && |b| == |y|
    ensures Kept(a + b, x + y) == Kept(a, x) + Kept(b, y)
    ensures Clear(a + b, x + y) == Clear(a, x) + Clear(b, y)
    ensures Size(a + b) == Size(a) + Size(b)
  {
    KeptConcat(a, b, x, y);
    ClearConcat(a, b, x, y);
    SizeConcat(a, b);
  }

  lemma {:induction false} KeptConcat(a: seq<Output>, b: seq<Output>, x: seq<bool>, y: seq<bool>)
    requires |a| == |x| && |b| == |y|
    ensures Kept(a + b, x + y) == Kept(a, x) + Kept(b, y)
    decreases |a|
  {
    if a == [] {
      assert a + b == b && x + y == y;
    } else {
      assert (a + b)[1..] == a[1..] + b && (x + y)[1..] == x[1..] + y;
      KeptConcat(a[1..], b, x[1..], y);
    }
  }

  lemma {:induction false} ClearConcat(a: seq<Output>, b: seq<Output>, x: seq<bool>, y: seq<bool>)
    requires |a| == |x| && |b| == |y|
    ensures Clear(a + b, x + y) == Clear(a, x) + Clear(b, y)
    decreases |a|
  {
    if a == [] {
      assert a + b == b && x + y == y;
    } else {
      assert (a + b)[1..] == a[1..] + b && (x + y)[1..] == x[1..] + y;
      ClearConcat(a[1..], b, x[1..], y);
    }
  }

  lemma {:induction false} SizeConcat(a: seq<Output>, b: seq<Output>)
    ensures Size(a + b) == Size(a) + Size(b)
    decreases |a|
  {
    if a == [] {
      assert a + b == b;
    } else {
      assert (a + b)[1..] == a[1..] + b;
      SizeConcat(a[1..], b);
    }
  }

  /** What a pass over `results`, starting from tally `t`, leaves in the messages and in the tally. */
  ghost predicate Explained(results: seq<Output>, after: seq<Output>, t: Tally, t': Tally, p: Policy) {
    var cleared := Decide(results, t.shieldUsed, p);
    && after == Clear(results, cleared)
    && t'.shieldUsed == t.shieldUsed + Kept(results, cleared)
    && t'.freed - t.freed == Size(results) - Size(after)
    && t'.cleared - t.cleared == Count(cleared)
  }

  function Count(cleared: seq<bool>): nat {
    if cleared == [] then 0 else (if cleared[0] then 1 else 0) + Count(cleared[1..])
  }

  lemma {:induction false} CountConcat(x: seq<bool>, y: seq<bool>)
    ensures Count(x + y) == Count(x) + Count(y)
    decreases |x|
  {
    if x == [] {
      assert x + y == y;
    } else {
      assert (x + y)[1..] == x[1..] + y;
      CountConcat(x[1..], y);
    }
  }

  lemma ExplainedConcat(
    a: seq<Output>, b: seq<Output>, a': seq<Output>, b': seq<Output>, t: Tally, t1: Tally, t2: Tally, p: Policy)
    requires Explained(a, a', t, t1, p) && Explained(b, b', t1, t2, p)
    ensures Explained(a + b, a' + b', t, t2, p)
  {
    hide Decide, Clear, Kept, Size, Count;
    var x, y := Decide(a, t.shieldUsed, p), Decide(b, t1.shieldUsed, p);
    DecideConcat(a, b, t.shieldUsed, p);
    SumsConcat(a, b, x, y);
    SumsConcat(a', b', x, y);
    CountConcat(x, y);
  }

  lemma OneExplained(part: Part, t: Tally, p: Policy)
    ensures var (part', t') := PrunePart(part, t, p);
      Explained(PartResults([part]), PartResults([part']), t, t', p)
  {
    var (part', t') := PrunePart(part, t, p);
    assert PartResults([]) == [];
    assert [part][1..] == [] && [part'][1..] == [];
    if part.ToolResult? {
      var rs := [part.output];
      assert PartResults([part]) == rs && PartResults([part']) == [part'.output];
      var cleared := Decide(rs, t.shieldUsed, p);
      assert rs[1..] == [] && cleared[1..] == [] && [part'.output][1..] == [];
      assert Size([]) == 0;
    }
  }

  lemma {:induction false} PartsExplained(parts: seq<Part>, t: Tally, p: Policy)
    ensures var (parts', t') := PruneParts(parts, t, p);
      Explained(PartResults(parts), PartResults(parts'), t, t', p)
    decreases |parts|
  {
    hide Explained, PrunePart;
    if parts == [] {
      NothingExplained(t, p);
    } else {
      var (part, t1) := PrunePart(parts[0], t, p);
      var (rest, t2) := PruneParts(parts[1..], t1, p);
      OneExplained(parts[0], t, p);
      PartsExplained(parts[1..], t1, p);
      ExplainedConcat(
        PartResults([parts[0]]), PartResults(parts[1..]), PartResults([part]), PartResults(rest), t, t1, t2, p);
      ResultsCons(parts[0], parts[1..]);
      ResultsCons(part, rest);
      assert [parts[0]] + parts[1..] == parts;
    }
  }

  lemma NothingExplained(t: Tally, p: Policy)
    ensures Explained([], [], t, t, p)
  {}

  lemma ResultsCons(part: Part, rest: seq<Part>)
    ensures PartResults([part] + rest) == PartResults([part]) + PartResults(rest)
  {
    assert PartResults([]) == [] && [part][1..] == [] && ([part] + rest)[1..] == rest;
  }

  lemma {:induction false} VisitedBelow(ms: seq<Message>, n: nat, m: Message, k: nat)
    requires k <= n < |ms|
    ensures Visited(ms[n := m], k) == Visited(ms, k)
    decreases k
  {
    hide MessageResults;
    if k > 0 { VisitedBelow(ms, n, m, k - 1); }
  }

  /**
   * The visited results after the pass are those before it with the decided ones cleared, and the
   * tally is exact: what the shield holds, what was freed and how many results were cleared.
   */
  lemma {:induction false} PruneExplained(ms: seq<Message>, n: nat, t: Tally, p: Policy)
    requires n <= |ms|
    ensures var (out, t') := PruneMessages(ms, n, t, p);
      Explained(Visited(ms, n), Visited(out, n), t, t', p)
    decreases n
  {
    hide Explained, PruneMessage, MessageResults;
    if n == 0 {
      NothingExplained(t, p);
    } else {
      var (m, t1) := PruneMessage(ms[n - 1], t, p);
      var ms1 := ms[n - 1 := m];
      var (out, t2) := PruneMessages(ms1, n - 1, t1, p);
      MessageExplained(ms[n - 1], t, p);
      PruneExplained(ms1, n - 1, t1, p);
      VisitedBelow(ms, n - 1, m, n - 1);
      PruneKeeps(ms1, n - 1, t1, p);
      assert out[n - 1] == m;
      ExplainedConcat(
        MessageResults(ms[n - 1]), Visited(ms, n - 1), MessageResults(m), Visited(out, n - 1), t, t1, t2, p);
    }
  }

  lemma MessageExplained(m: Message, t: Tally, p: Policy)
    ensures var (m', t') := PruneMessage(m, t, p);
      Explained(MessageResults(m), MessageResults(m'), t, t', p)
  {
    hide Explained;
    if Prunable(m) { PartsExplained(m.content.parts, t, p); } else { NothingExplained(t, p); }
  }

  /** The freed count is exactly the drop in tool output, and each cleared result stood behind a full shield. */
  lemma PruneAccounts(ms: seq<Message>, splitAt: nat, p: Policy)
    ensures var n := if splitAt <= |ms| then splitAt else |ms|;
      var (out, t) := Pruned(ms, splitAt, p);
      && t.freed == Size(Visited(ms, n)) - Size(Visited(out, n))
      && forall k :: 0 <= k < |Visited(ms, n)| ==>
        var cleared := Decide(Visited(ms, n), 0, p);
        && |Visited(out, n)| == |Visited(ms, n)|
        && (if cleared[k]
            then Visited(out, n)[k] == Text(PLACEHOLDER) && Kept(Visited(ms, n)[..k], cleared[..k]) >= p.shield
            else Visited(out, n)[k] == Visited(ms, n)[k])
  {
    hide Visited, PruneMessages, Decide, Kept;
    var n := if splitAt <= |ms| then splitAt else |ms|;
    PruneExplained(ms, n, START, p);
    var results := Visited(ms, n);
    forall k | 0 <= k < |results|
      ensures Decide(results, 0, p)[k] ==> Kept(results[..k], Decide(results, 0, p)[..k]) >= p.shield
    {
      ClearedIff(results, 0, p, k);
    }
  }

  // ------------------------------------------------------------------------ each result by its place

  /** Tool output of some parts that a pass left as it was. */
  function KeptOutput(parts: seq<Part>, after: seq<Part>): nat
    requires |parts| == |after|
  {
    if parts == [] then 0
    else (if parts[0].ToolResult? && after[0] == parts[0] then OutputSize(parts[0].output) else 0)
         + KeptOutput(parts[1..], after[1..])
  }

  /** The same over two contexts of the same shape: in the tool messages from `i` up to `n`. */
  function KeptBetween(ms: seq<Message>, out: seq<Message>, i: nat, n: nat): nat
    requires i <= n <= |ms| == |out|
    decreases n - i
  {
    if i == n then 0
    else
      KeptBetween(ms, out, i + 1, n)
      + if ms[i].role == Tool && ms[i].content.Parts? && out[i].content.Parts?
           && |out[i].content.parts| == |ms[i].content.parts|
        then KeptOutput(ms[i].content.parts, out[i].content.parts) else 0
  }

  /** What becomes of a part with that much tool output kept behind it. */
  function Treated(part: Part, kept: nat, p: Policy): Part {
    if part.ToolResult? && OutputSize(part.output) > p.minResult && kept >= p.shield
    then ToolResult(part.id, Text("[old tool result cleared — rerun the tool if needed]")) else part
  }

  lemma OneTreated(part: Part, t: Tally, p: Policy)
    requires |PLACEHOLDER| <= p.minResult
    ensures var (part', t') := PrunePart(part, t, p);
      && part' == Treated(part, t.shieldUsed, p)
      && t'.shieldUsed == t.shieldUsed + KeptOutput([part], [part'])
  {
    assert [part][1..] == [];
  }

  lemma KeptCons(parts: seq<Part>, after: seq<Part>)
    requires |parts| == |after| && parts != []
    ensures KeptOutput(parts, after) == KeptOutput([parts[0]], [after[0]]) + KeptOutput(parts[1..], after[1..])
  {
    assert [parts[0]][1..] == [] && [after[0]][1..] == [];
  }

  lemma {:induction false} PartsTreated(parts: seq<Part>, t: Tally, p: Policy)
    requires |PLACEHOLDER| <= p.minResult
    ensures var (after, t') := PruneParts(parts, t, p);
      && t'.shieldUsed == t.shieldUsed + KeptOutput(parts, after)
      && forall k :: 0 <= k < |parts| ==>
        after[k] == Treated(parts[k], t.shieldUsed + KeptOutput(parts[..k], after[..k]), p)
    decreases |parts|
  {
    hide PrunePart, Treated, KeptOutput;
    NoneKept();
    if parts != [] {
      var (first, t1) := PrunePart(parts[0], t, p);
      var rest := PruneParts(parts[1..], t1, p).0;
      var after := PruneParts(parts, t, p).0;
      OneTreated(parts[0], t, p);
      PartsTreated(parts[1..], t1, p);
      KeptCons(parts, after);
      assert after == [first] + rest;
      hide PruneParts;
      forall k | 0 <= k < |parts|
        ensures after[k] == Treated(parts[k], t.shieldUsed + KeptOutput(parts[..k], after[..k]), p)
      {
        if k > 0 {
          KeptCons(parts[..k], after[..k]);
          FrontTails(parts, k);
          FrontTails(after, k);
          assert rest == after[1..] && after[k] == rest[k - 1] && parts[k] == parts[1..][k - 1];
        }
      }
    }
  }

  lemma FrontTails(parts: seq<Part>, k: nat)
    requires 0 < k <= |parts|
    ensures parts[..k][1..] == parts[1..][..k - 1]
  {}

  lemma NoneKept()
    ensures KeptOutput([], []) == 0
  {}

  /** The message at `i` behind a pass over the first `n`, with the output kept in the messages between. */
  ghost predicate MessageTreated(m: Message, m': Message, used: nat, p: Policy) {
    && m'.role == m.role
    && if m.role != Tool || m.content.Str? then m' == m
       else
         && m'.content.Parts? && |m'.content.parts| == |m.content.parts|
         && forall k :: 0 <= k < |m.content.parts| ==>
              m'.content.parts[k] ==
                Treated(m.content.parts[k], used + KeptOutput(m.content.parts[..k], m'.content.parts[..k]), p)
  }

  lemma OneMessageTreated(m: Message, t: Tally, p: Policy)
    requires |PLACEHOLDER| <= p.minResult
    ensures var (m', t') := PruneMessage(m, t, p);
      && MessageTreated(m, m', t.shieldUsed, p)
      && t'.shieldUsed == t.shieldUsed + KeptBetween([m], [m'], 0, 1)
  {
    hide PruneParts, Treated, KeptOutput;
    var m' := PruneMessage(m, t, p).0;
    if Prunable(m) { PartsTreated(m.content.parts, t, p); }
    assert KeptBetween([m], [m'], 1, 1) == 0;
  }

  lemma KeptSame(ms: seq<Message>, out: seq<Message>, ms': seq<Message>, out': seq<Message>, i: nat, d: int, n: nat)
    requires i <= n <= |ms| == |out| && 0 <= i + d && n + d <= |ms'| == |out'|
    requires forall j :: i <= j < n ==> ms[j] == ms'[j + d] && out[j] == out'[j + d]
    ensures KeptBetween(ms, out, i, n) == KeptBetween(ms', out', i + d, n + d)
    decreases n - i
  {
    hide KeptOutput;
    if i < n { KeptSame(ms, out, ms', out', i + 1, d, n); }
  }

  lemma KeptSnoc(ms: seq<Message>, out: seq<Message>, i: nat, n: nat)
    requires i < n <= |ms| == |out|
    ensures KeptBetween(ms, out, i, n) == KeptBetween(ms, out, i, n - 1) + KeptBetween([ms[n - 1]], [out[n - 1]], 0, 1)
    decreases n - i
  {
    hide KeptOutput;
    if i + 1 < n {
      KeptSnoc(ms, out, i + 1, n);
    } else {
      assert KeptBetween([ms[i]], [out[i]], 1, 1) == 0;
    }
  }

  /**
   * Every tool result in front of the split is cleared exactly when it is large and the tool output kept
   * behind it, in its own message and the ones up to the split, fills the shield. Nothing else changes.
   */
  lemma {:induction false} ResultsTreated(ms: seq<Message>, n: nat, t: Tally, p: Policy)
    requires n <= |ms| && |PLACEHOLDER| <= p.minResult
    ensures var out := PruneMessages(ms, n, t, p).0;
      && (forall i :: n <= i < |ms| ==> out[i] == ms[i])
      && forall i :: 0 <= i < n ==> MessageTreated(ms[i], out[i], t.shieldUsed + KeptBetween(ms, out, i + 1, n), p)
    decreases n
  {
    hide PruneMessage, MessageTreated, KeptBetween, KeptOutput;
    if n > 0 {
      var (m, t1) := PruneMessage(ms[n - 1], t, p);
      var ms1 := ms[n - 1 := m];
      var out := PruneMessages(ms, n, t, p).0;
      OneMessageTreated(ms[n - 1], t, p);
      ResultsTreated(ms1, n - 1, t1, p);
      assert out[n - 1] == m;
      forall i | 0 <= i < n ensures MessageTreated(ms[i], out[i], t.shieldUsed + KeptBetween(ms, out, i + 1, n), p) {
        NothingBetween(ms, out, n);
        if i < n - 1 {
          KeptSame(ms1, out, ms, out, i + 1, 0, n - 1);
          KeptSnoc(ms, out, i + 1, n);
        }
      }
    }
  }

  /** The same for a whole pass and any message. */
  lemma PrunedTreated(ms: seq<Message>, splitAt: nat, p: Policy, i: nat)
    requires i < |ms| && |PLACEHOLDER| <= p.minResult
    ensures |Pruned(ms, splitAt, p).0| == |ms|
    ensures var out := Pruned(ms, splitAt, p).0;
      if i >= splitAt then out[i] == ms[i]
      else MessageTreated(ms[i], out[i], KeptBetween(ms, out, i + 1, if splitAt <= |ms| then splitAt else |ms|), p)
  {
    hide PruneMessages, MessageTreated, KeptBetween;
    ResultsTreated(ms, if splitAt <= |ms| then splitAt else |ms|, START, p);
  }

  lemma NothingBetween(ms: seq<Message>, out: seq<Message>, n: nat)
    requires n <= |ms| == |out|
    ensures KeptBetween(ms, out, n, n) == 0
  {}

  // ---------------------------------------------------------------------------- pruning once is enough

  /** How the tally of a second pass runs ahead of the first. */
  predicate Ahead(t: Tally, u: Tally, p: Policy) {
    && u.shieldUsed >= t.shieldUsed && (t.shieldUsed < p.shield ==> u.shieldUsed == t.shieldUsed)
    && u.freed == 0 && u.cleared == 0
  }

  lemma AgainPart(part: Part, t: Tally, u: Tally, p: Policy)
    requires Ahead(t, u, p) && |PLACEHOLDER| <= p.minResult
    ensures var (part', t') := PrunePart(part, t, p);
      && PrunePart(part', u, p).0 == part' && Ahead(t', PrunePart(part', u, p).1, p)
  {}

  lemma {:induction false} AgainParts(parts: seq<Part>, t: Tally, u: Tally, p: Policy)
    requires Ahead(t, u, p) && |PLACEHOLDER| <= p.minResult
    ensures var (parts', t') := PruneParts(parts, t, p);
      && PruneParts(parts', u, p).0 == parts' && Ahead(t', PruneParts(parts', u, p).1, p)
    decreases |parts|
  {
    hide PrunePart, Ahead;
    if parts != [] {
      var (part, t1) := PrunePart(parts[0], t, p);
      AgainPart(parts[0], t, u, p);
      AgainParts(parts[1..], t1, PrunePart(part, u, p).1, p);
      var parts' := PruneParts(parts, t, p).0;
      assert parts'[0] == part && parts'[1..] == PruneParts(parts[1..], t1, p).0;
    }
  }

  lemma {:induction false} AgainMessages(ms: seq<Message>, n: nat, t: Tally, u: Tally, p: Policy)
    requires n <= |ms| && Ahead(t, u, p) && |PLACEHOLDER| <= p.minResult
    ensures var (out, t') := PruneMessages(ms, n, t, p);
      && PruneMessages(out, n, u, p).0 == out && Ahead(t', PruneMessages(out, n, u, p).1, p)
    decreases n
  {
    hide PruneParts, Ahead;
    if n > 0 {
      var (m, t1) := PruneMessage(ms[n - 1], t, p);
      var ms1 := ms[n - 1 := m];
      var out := PruneMessages(ms, n, t, p).0;
      PruneKeeps(ms1, n - 1, t1, p);
      assert out[n - 1] == m;
      AgainMessage(ms[n - 1], t, u, p);
      AgainMessages(ms1, n - 1, t1, PruneMessage(m, u, p).1, p);
      assert out[n - 1 := m] == out;
    }
  }

  lemma AgainMessage(m: Message, t: Tally, u: Tally, p: Policy)
    requires Ahead(t, u, p) && |PLACEHOLDER| <= p.minResult
    ensures var (m', t') := PruneMessage(m, t, p);
      && PruneMessage(m', u, p).0 == m' && Ahead(t', PruneMessage(m', u, p).1, p)
  {
    hide Ahead, PruneParts;
    if Prunable(m) { AgainParts(m.content.parts, t, u, p); }
  }

  /** A second pass finds nothing: it changes no message and frees nothing. */
  lemma PruneTwice(ms: seq<Message>, splitAt: nat, p: Policy)
    requires |PLACEHOLDER| <= p.minResult
    ensures var out := Pruned(ms, splitAt, p).0;
      Pruned(out, splitAt, p).0 == out && Pruned(out, splitAt, p).1.freed == 0 && Pruned(out, splitAt, p).1.cleared == 0
  {
    hide PruneMessages;
    AgainMessages(ms, if splitAt <= |ms| then splitAt else |ms|, START, START, p);
  }

  // ---------------------------------------------------------------------------------------- the loops

  method PruneOldToolResults(messages: seq<Message>, splitAt: nat, p: Policy)
    returns (out: seq<Message>, freedChars: int, clearedResults: nat)
    ensures var (ms, t) := Pruned(messages, splitAt, p);
      out == ms && freedChars == t.freed && clearedResults == t.cleared
  {
    hide PruneParts;
    out := messages;
    var shieldUsed := 0;
    freedChars, clearedResults := 0, 0;
    var i := if splitAt <= |messages| then splitAt else |messages|;
    while i > 0
      invariant 0 <= i <= |messages| == |out|
      invariant forall k :: 0 <= k < i ==> out[k] == messages[k]
      invariant PruneMessages(out, i, Tally(shieldUsed, freedChars, clearedResults), p) == Pruned(messages, splitAt, p)
    {
      i := i - 1;
      var message := messages[i];
      if message.role == Tool && message.content.Parts? {
        var content;
        content, shieldUsed, freedChars, clearedResults :=
          PruneContent(message.content.parts, shieldUsed, freedChars, clearedResults, p);
        out := out[i := message.(content := Parts(content))];
      } else {
        assert out[i := message] == out;
      }
    }
  }

  method PruneContent(parts: seq<Part>, shield: nat, freed: int, cleared: nat, p: Policy)
    returns (content: seq<Part>, shieldUsed: nat, freedChars: int, clearedResults: nat)
    ensures var r := PruneParts(parts, Tally(shield, freed, cleared), p);
      content == r.0 && Tally(shieldUsed, freedChars, clearedResults) == r.1
  {
    content, shieldUsed, freedChars, clearedResults := [], shield, freed, cleared;
    assert parts[0..] == parts;
    for k := 0 to |parts|
      invariant var rest := PruneParts(parts[k..], Tally(shieldUsed, freedChars, clearedResults), p);
        var r := PruneParts(parts, Tally(shield, freed, cleared), p);
        content + rest.0 == r.0 && rest.1 == r.1
    {
      var part := parts[k];
      assert parts[k..][0] == part && parts[k..][1..] == parts[k + 1..];
      ghost var t := Tally(shieldUsed, freedChars, clearedResults);
      ghost var rest := PruneParts(parts[k..], t, p);
      var kept := part;
      if part.ToolResult? {
        var size := OutputSize(part.output);
        if size <= p.minResult || shieldUsed < p.shield {
          shieldUsed := shieldUsed + size;
        } else {
          freedChars := freedChars + size - |PLACEHOLDER|;
          clearedResults := clearedResults + 1;
          kept := part.(output := Text(PLACEHOLDER));
        }
      }
      assert (kept, Tally(shieldUsed, freedChars, clearedResults)) == PrunePart(part, t, p);
      assert rest.0 == [kept] + PruneParts(parts[k + 1..], Tally(shieldUsed, freedChars, clearedResults), p).0;
      content := content + [kept];
    }
  }
}
