/**
 * The bounded pool as a transition system: lanes that share one iterator over the items, workers that
 * finish or fail in any order, and a signal that may abort at any moment.
 */
module Pool {
  import opened Options

  // ------------------------------------------------------------------------------------- the width

  /** The requested limit, as a number may come in. */
  datatype Limit = NotANumber | Infinite | Finite(v: real)

  function Min(x: int, y: int): int { if x <= y then x else y }

  /** How many lanes run for `n` items. */
  function Width(limit: Limit, n: nat): int {
    var wanted :=
      match limit
      case NotANumber => 1
      case Infinite => n
      case Finite(v) => if v.Floor == 0 then 1 else v.Floor;
    if Min(wanted, n) >= 1 then Min(wanted, n) else 1
  }

  /** At least one lane, never more than items, and otherwise the whole part of the limit. */
  lemma WidthBounds(limit: Limit, n: nat)
    requires n > 0
    ensures 1 <= Width(limit, n) <= n
    ensures limit.Finite? && 1.0 <= limit.v ==> Width(limit, n) as real <= limit.v
    ensures limit.Finite? && 1.0 <= limit.v && limit.v < n as real ==> limit.v < (Width(limit, n) + 1) as real
  {}

  /** The whole part of the limit where that is between one lane and all items, and the nearer of the two otherwise. */
  lemma WidthIs(limit: Limit, n: nat, w: int)
    requires n > 0
    ensures Width(limit, n) == w <==>
      match limit
      case NotANumber => w == 1
      case Infinite => w == n
      case Finite(v) =>
        if v < 1.0 then w == 1
        else if v >= n as real then w == n
        else w as real <= v < (w + 1) as real
  {}

  // -------------------------------------------------------------------------------------- the system

  datatype Lane = Ready | Working(index: nat) | Finished | Failed
  datatype Verdict = Pending | Resolved | Rejected

  /** `started` and `returned` record which items were started, in order, and what their workers returned. */
  datatype State<R> = State(
    next: nat, lanes: seq<Lane>, stopped: bool, aborted: bool, results: seq<Option<R>>, verdict: Verdict,
    started: seq<nat>, returned: map<nat, R>)

  datatype Action<R> = Claim(lane: nat) | Finish(lane: nat, result: R) | Fail(lane: nat) | Abort | Settle

  function Init<R>(n: nat, width: nat): State<R> {
    State(0, seq(width, i => Ready), false, false, seq(n, i => None), Pending, [], map[])
  }

  predicate Enabled<R>(s: State<R>, a: Action<R>, n: nat) {
    match a
    case Claim(l) => l < |s.lanes| && s.lanes[l].Ready? && s.next <= n
    case Finish(l, _) => l < |s.lanes| && s.lanes[l].Working? && s.lanes[l].index < |s.results|
    case Fail(l) => l < |s.lanes| && s.lanes[l].Working?
    case Abort => !s.aborted
    case Settle => s.verdict.Pending? && forall l :: 0 <= l < |s.lanes| ==> s.lanes[l].Finished?
  }

  function Reject(v: Verdict): Verdict { if v.Pending? then Rejected else v }

  function Next<R>(s: State<R>, a: Action<R>, n: nat): State<R>
    requires Enabled(s, a, n)
  {
    match a
    case Claim(l) =>
      if s.next == n then s.(lanes := s.lanes[l := Finished])
      else if s.stopped then s.(next := s.next + 1, lanes := s.lanes[l := Finished])
      else s.(next := s.next + 1, lanes := s.lanes[l := Working(s.next)], started := s.started + [s.next])
    case Finish(l, r) =>
      var i := s.lanes[l].index;
      s.(lanes := s.lanes[l := Ready], results := s.results[i := Some(r)], returned := s.returned[i := r])
    case Fail(l) => s.(lanes := s.lanes[l := Failed], stopped := true, verdict := Reject(s.verdict))
    case Abort => s.(stopped := true, aborted := true, verdict := Reject(s.verdict))
    case Settle => s.(verdict := Resolved)
  }

  /** The actions can happen one after the other, starting from `s`. */
  predicate Possible<R>(s: State<R>, actions: seq<Action<R>>, n: nat)
    decreases |actions|
  {
    actions == [] || (Enabled(s, actions[0], n) && Possible(Next(s, actions[0], n), actions[1..], n))
  }

  function Run<R>(s: State<R>, actions: seq<Action<R>>, n: nat): State<R>
    requires Possible(s, actions, n)
    decreases |actions|
  {
    if actions == [] then s else Run(Next(s, actions[0], n), actions[1..], n)
  }

  // ------------------------------------------------------------------------------------ the invariant

  ghost predicate InFlight<R>(s: State<R>, i: nat) {
    exists l :: 0 <= l < |s.lanes| && s.lanes[l] == Working(i)
  }

  ghost predicate InOrder<R>(s: State<R>, n: nat) {
    && s.next <= n && |s.started| <= s.next && (!s.stopped ==> |s.started| == s.next)
    && forall k :: 0 <= k < |s.started| ==> s.started[k] == k
  }

  ghost predicate LanesInv<R>(s: State<R>) {
    && (forall l :: 0 <= l < |s.lanes| && s.lanes[l].Working? ==>
         s.lanes[l].index < |s.started| && s.lanes[l].index !in s.returned)
    && (forall l, m :: 0 <= l < m < |s.lanes| && s.lanes[l].Working? && s.lanes[m].Working? ==>
         s.lanes[l].index != s.lanes[m].index)
    && (!s.stopped ==> forall i :: 0 <= i < |s.started| ==> i in s.returned || InFlight(s, i))
  }

  ghost predicate ResultsInv<R>(s: State<R>, n: nat) {
    && |s.results| == n
    && (forall i: nat :: i in s.returned ==> i < |s.started|)
    && forall i :: 0 <= i < n ==> s.results[i] == if i in s.returned then Some(s.returned[i]) else None
  }

  ghost predicate VerdictInv<R>(s: State<R>, n: nat) {
    && (s.stopped ==> !s.verdict.Pending?)
    && (!s.stopped ==> forall l :: 0 <= l < |s.lanes| ==> !s.lanes[l].Failed? && (s.lanes[l].Finished? ==> s.next == n))
    && (s.verdict.Resolved? ==> forall i :: 0 <= i < n ==> i in s.returned)
  }

  ghost predicate Inv<R>(s: State<R>, n: nat, width: nat) {
    && |s.lanes| == width && width >= 1
    && InOrder(s, n) && LanesInv(s) && ResultsInv(s, n) && VerdictInv(s, n)
  }

  lemma InitInv<R>(n: nat, width: nat)
    requires width >= 1
    ensures Inv(Init<R>(n, width), n, width)
  {}

  lemma ClaimInv<R>(s: State<R>, l: nat, n: nat, width: nat)
    requires Inv(s, n, width) && Enabled(s, Claim(l), n)
    ensures Inv(Next(s, Claim(l), n), n, width)
  {
    var t := Next(s, Claim(l), n);
    if !t.stopped {
      forall i | 0 <= i < |t.started| ensures i in t.returned || InFlight(t, i) {
        if i < |s.started| && i !in s.returned {
          var m :| 0 <= m < |s.lanes| && s.lanes[m] == Working(i);
          assert t.lanes[m] == Working(i);
        } else if i == |s.started| {
          assert t.lanes[l] == Working(i);
        }
      }
    }
  }

  lemma FinishInv<R>(s: State<R>, l: nat, r: R, n: nat, width: nat)
    requires Inv(s, n, width) && Enabled(s, Finish(l, r), n)
    ensures Inv(Next(s, Finish(l, r), n), n, width)
  {
    var t := Next(s, Finish(l, r), n);
    if !t.stopped {
      forall i | 0 <= i < |t.started| ensures i in t.returned || InFlight(t, i) {
        if i !in t.returned {
          var m :| 0 <= m < |s.lanes| && s.lanes[m] == Working(i);
          assert t.lanes[m] == Working(i);
        }
      }
    }
  }

  lemma StopInv<R>(s: State<R>, a: Action<R>, n: nat, width: nat)
    requires Inv(s, n, width) && Enabled(s, a, n) && (a.Fail? || a.Abort?)
    ensures Inv(Next(s, a, n), n, width)
  {}

  lemma SettleInv<R>(s: State<R>, n: nat, width: nat)
    requires Inv(s, n, width) && Enabled(s, Settle, n)
    ensures Inv(Next(s, Settle, n), n, width)
  {
    assert !s.stopped && s.lanes[0].Finished?;
    assert |s.started| == n;
    forall i | 0 <= i < n ensures i in s.returned {
      assert i in s.returned || InFlight(s, i);
    }
  }

  lemma NextInv<R>(s: State<R>, a: Action<R>, n: nat, width: nat)
    requires Inv(s, n, width) && Enabled(s, a, n)
    ensures Inv(Next(s, a, n), n, width)
  {
    hide Inv, Next;
    match a {
      case Claim(l) => ClaimInv(s, l, n, width);
      case Finish(l, r) => FinishInv(s, l, r, n, width);
      case Fail(l) => StopInv(s, a, n, width);
      case Abort => StopInv(s, a, n, width);
      case Settle => SettleInv(s, n, width);
    }
  }

  lemma {:induction false} RunInv<R>(s: State<R>, actions: seq<Action<R>>, n: nat, width: nat)
    requires Inv(s, n, width) && Possible(s, actions, n)
    ensures Inv(Run(s, actions, n), n, width)
    decreases |actions|
  {
    hide Inv, Next, Enabled;
    if actions != [] {
      NextInv(s, actions[0], n, width);
      RunInv(Next(s, actions[0], n), actions[1..], n, width);
    }
  }

  // ----------------------------------------------------------------------------- what every run keeps

  function Workers(lanes: seq<Lane>): nat {
    if lanes == [] then 0 else Workers(lanes[1..]) + if lanes[0].Working? then 1 else 0
  }

  lemma {:induction false} WorkersBounded(lanes: seq<Lane>)
    ensures Workers(lanes) <= |lanes|
    decreases |lanes|
  {
    if lanes != [] { WorkersBounded(lanes[1..]); }
  }

  /**
   * In every interleaving: at most `width` workers in flight, items started at most once and in order,
   * two workers never on one item, and a resolved pool holds in every slot what that item's own worker
   * returned.
   */
  lemma PoolSafety<R>(actions: seq<Action<R>>, n: nat, width: nat)
    requires width >= 1 && Possible(Init<R>(n, width), actions, n)
    ensures var s := Run(Init<R>(n, width), actions, n);
      && Workers(s.lanes) <= width
      && |s.started| <= n && (forall k :: 0 <= k < |s.started| ==> s.started[k] == k)
      && (forall l, m :: 0 <= l < m < |s.lanes| && s.lanes[l].Working? && s.lanes[m].Working? ==>
           s.lanes[l].index != s.lanes[m].index)
      && (s.verdict.Resolved? ==>
           |s.results| == n && forall i :: 0 <= i < n ==> i in s.returned && s.results[i] == Some(s.returned[i]))
  {
    InitInv<R>(n, width);
    RunInv(Init<R>(n, width), actions, n, width);
    WorkersBounded(Run(Init<R>(n, width), actions, n).lanes);
  }

  /** From a failure or an abort on no worker starts, and the pool has been rejected unless it was settled before. */
  lemma {:induction false} NoStartAfterStop<R>(s: State<R>, actions: seq<Action<R>>, n: nat)
    requires s.stopped && Possible(s, actions, n)
    ensures Run(s, actions, n).stopped && Run(s, actions, n).started == s.started
    decreases |actions|
  {
    if actions != [] { NoStartAfterStop(Next(s, actions[0], n), actions[1..], n); }
  }

  lemma {:induction false} VerdictIsFinal<R>(s: State<R>, actions: seq<Action<R>>, n: nat)
    requires !s.verdict.Pending? && Possible(s, actions, n)
    ensures Run(s, actions, n).verdict == s.verdict
    decreases |actions|
  {
    if actions != [] { VerdictIsFinal(Next(s, actions[0], n), actions[1..], n); }
  }

  /**
   * A failure or abort settles the pool for good: whatever happens afterwards nothing more starts, and
   * the pool is rejected unless it had resolved before, with every result in place.
   */
  lemma StopSettles<R>(s: State<R>, a: Action<R>, later: seq<Action<R>>, n: nat, width: nat)
    requires Inv(s, n, width) && Enabled(s, a, n) && (a.Fail? || a.Abort?)
    requires Possible(Next(s, a, n), later, n)
    ensures var t := Run(Next(s, a, n), later, n);
      && t.stopped && t.started == s.started
      && t.verdict == (if s.verdict.Resolved? then Resolved else Rejected)
      && (t.verdict.Resolved? ==> forall i :: 0 <= i < n ==> i in s.returned)
  {
    hide Inv;
    var next := Next(s, a, n);
    ResolvedHasAll(s, n, width);
    NoStartAfterStop(next, later, n);
    VerdictIsFinal(next, later, n);
  }

  lemma ResolvedHasAll<R>(s: State<R>, n: nat, width: nat)
    requires Inv(s, n, width)
    ensures s.verdict.Resolved? ==> forall i :: 0 <= i < n ==> i in s.returned
  {}

  // -------------------------------------------------------------------------------- every run ends

  function LaneWork(lanes: seq<Lane>): nat {
    if lanes == [] then 0
    else LaneWork(lanes[1..]) + match lanes[0] case Ready => 1 case Working(_) => 2 case _ => 0
  }

  /** Work that is left, counted in steps. */
  function Work<R>(s: State<R>, n: nat): int {
    3 * (n - s.next) + LaneWork(s.lanes) + (if s.aborted then 0 else 1) + (if s.verdict.Pending? then 1 else 0)
  }

  lemma {:induction false} LaneWorkUpdate(lanes: seq<Lane>, l: nat, lane: Lane)
    requires l < |lanes|
    ensures LaneWork(lanes[l := lane]) - LaneWork([lane]) == LaneWork(lanes) - LaneWork([lanes[l]])
    decreases |lanes|
  {
    assert [lane][1..] == [] && [lanes[l]][1..] == [];
    if l == 0 {
      assert lanes[0 := lane][1..] == lanes[1..];
    } else {
      LaneWorkUpdate(lanes[1..], l - 1, lane);
      assert lanes[l := lane][1..] == lanes[1..][l - 1 := lane];
    }
  }

  lemma OneLane(lane: Lane)
    ensures LaneWork([lane]) == match lane case Ready => 1 case Working(_) => 2 case _ => 0
  {
    assert [lane][1..] == [];
  }

  lemma StepWorks<R>(s: State<R>, a: Action<R>, n: nat)
    requires Enabled(s, a, n) && s.next <= n
    ensures Work(Next(s, a, n), n) < Work(s, n) && Next(s, a, n).next <= n
  {
    hide LaneWork;
    if a.Claim? || a.Finish? || a.Fail? {
      var t := Next(s, a, n);
      LaneWorkUpdate(s.lanes, a.lane, t.lanes[a.lane]);
      OneLane(s.lanes[a.lane]);
      OneLane(t.lanes[a.lane]);
    }
  }

  /** No run is longer than the work there was. */
  lemma {:induction false} RunsAreBounded<R>(s: State<R>, actions: seq<Action<R>>, n: nat)
    requires s.next <= n && Possible(s, actions, n)
    ensures |actions| <= Work(s, n)
    ensures Run(s, actions, n).next <= n && Work(Run(s, actions, n), n) + |actions| <= Work(s, n)
    decreases |actions|
  {
    hide Work, Next, Enabled;
    if actions != [] {
      StepWorks(s, actions[0], n);
      RunsAreBounded(Next(s, actions[0], n), actions[1..], n);
    }
    WorkPositive(Run(s, actions, n), n);
  }

  lemma WorkPositive<R>(s: State<R>, n: nat)
    requires s.next <= n
    ensures Work(s, n) >= 0
  {}

  /** A pool that is not settled is never stuck: a lane can claim, a worker can end, or the pool resolves. */
  lemma NeverStuck<R>(s: State<R>, n: nat, width: nat, result: R)
    requires Inv(s, n, width) && s.verdict.Pending?
    ensures exists a: Action<R> :: a != Abort && Enabled(s, a, n)
  {
    if l :| 0 <= l < |s.lanes| && s.lanes[l].Ready? {
      assert Enabled(s, Claim(l), n);
    } else if l :| 0 <= l < |s.lanes| && s.lanes[l].Working? {
      assert Enabled(s, Fail(l), n);
      assert Enabled(s, Finish(l, result), n);
    } else {
      assert Enabled(s, Settle, n);
    }
  }
}
