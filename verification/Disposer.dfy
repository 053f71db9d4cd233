/**
 * Releasing a run's resources: a stack of releases, drained newest first. Registrations and calls to
 * dispose may arrive at any moment, also while a release is awaited, and any release may throw.
 */
module Disposer {
  import opened Options

  /** Releases are numbered in the order they are registered. */
  datatype State = State(
    stack: seq<nat>,         // registered and not started
    added: nat,              // registered so far
    calls: nat,              // calls to dispose so far
    active: bool,            // a drain is under way
    running: Option<nat>,    // the release being awaited
    ran: seq<nat>,           // started, in order
    errors: seq<nat>,        // releases that threw in the drain under way
    reports: seq<seq<nat>>)  // what each finished drain reported; one per call

  datatype Event = Add | DisposeAll | Begin | Pop | Finish(threw: bool) | End

  const FRESH := State([], 0, 0, false, None, [], [], [])

  /** The state behind an event, if it can happen: drains wait for one another and take the top of the stack. */
  function Apply(s: State, e: Event): Option<State> {
    match e
    case Add => Some(s.(stack := s.stack + [s.added], added := s.added + 1))
    case DisposeAll => Some(s.(calls := s.calls + 1))
    case Begin =>
      if s.active || |s.reports| >= s.calls then None else Some(s.(active := true, errors := []))
    case Pop =>
      if !s.active || s.running.Some? || s.stack == [] then None
      else
        var n := |s.stack| - 1;
        Some(s.(stack := s.stack[..n], running := Some(s.stack[n]), ran := s.ran + [s.stack[n]]))
    case Finish(threw) =>
      if s.running.None? then None
      else Some(s.(running := None, errors := if threw then s.errors + [s.running.value] else s.errors))
    case End =>
      if !s.active || s.running.Some? || s.stack != [] then None
      else Some(s.(active := false, errors := [], reports := s.reports + [s.errors]))
  }

  function After(events: seq<Event>): Option<State> {
    if events == [] then Some(FRESH)
    else
      var n := |events| - 1;
      match After(events[..n])
      case None => None
      case Some(s) => Apply(s, events[n])
  }

  // ------------------------------------------------------------------------------ in every run

  ghost predicate Inv(s: State) {
    && (forall i, j :: 0 <= i < j < |s.stack| ==> s.stack[i] < s.stack[j])
    && (forall i, j :: 0 <= i < j < |s.ran| ==> s.ran[i] != s.ran[j])
    && (forall id: nat :: id < s.added <==> id in s.stack || id in s.ran)
    && (forall id: nat :: !(id in s.stack && id in s.ran))
    && (s.running.Some? ==> s.active && s.ran != [] && s.running.value == s.ran[|s.ran| - 1])
    && |s.reports| + (if s.active then 1 else 0) <= s.calls
    && (!s.active ==> s.errors == [])
  }

  lemma ApplyInv(s: State, e: Event)
    requires Inv(s) && Apply(s, e).Some?
    ensures Inv(Apply(s, e).value)
  {
    hide Inv, Apply;
    if e == Pop { PopInv(s); }
    if e == Add { AddInv(s); }
    if e != Pop && e != Add { OtherInv(s, e); }
  }

  lemma OtherInv(s: State, e: Event)
    requires Inv(s) && Apply(s, e).Some? && e != Pop && e != Add
    ensures Inv(Apply(s, e).value)
  {}

  lemma PopInv(s: State)
    requires Inv(s) && Apply(s, Pop).Some?
    ensures Inv(Apply(s, Pop).value)
  {
    var s' := Apply(s, Pop).value;
    var n := |s.stack| - 1;
    assert s.stack == s.stack[..n] + [s.stack[n]];
    assert s.stack[n] in s.stack;
    assert forall id: nat :: id in s'.stack ==> id in s.stack && id != s.stack[n];
    assert forall id: nat :: id in s'.ran <==> id in s.ran || id == s.stack[n];
  }

  lemma AddInv(s: State)
    requires Inv(s)
    ensures Inv(Apply(s, Add).value)
  {
    var s' := Apply(s, Add).value;
    assert s.added !in s.stack && s.added !in s.ran;
    forall k | 0 <= k < |s.stack| ensures s.stack[k] < s.added { assert s.stack[k] in s.stack; }
    assert forall id: nat :: id in s'.stack <==> id in s.stack || id == s.added;
  }

  /** No release starts twice, and at any moment every registered one has started or waits on the stack. */
  lemma {:induction false} EachRunsOnce(events: seq<Event>)
    requires After(events).Some?
    ensures Inv(After(events).value)
    decreases |events|
  {
    hide Apply, Inv;
    if events == [] {
      FreshInv();
    } else {
      EachRunsOnce(events[..|events| - 1]);
      ApplyInv(After(events[..|events| - 1]).value, events[|events| - 1]);
    }
  }

  lemma FreshInv()
    ensures Inv(FRESH)
  {}

  /** What is released next was acquired after everything else that is still held. */
  lemma NewestFirst(events: seq<Event>)
    requires After(events + [Pop]).Some?
    ensures var s, s' := After(events).value, After(events + [Pop]).value;
      && s'.running.Some? && s'.running.value < s.added && s'.running.value !in s.ran
      && forall id: nat :: id < s.added && id !in s.ran ==> id <= s'.running.value
  {
    hide Inv;
    assert (events + [Pop])[..|events|] == events;
    EachRunsOnce(events);
    Top(After(events).value);
  }

  lemma Top(s: State)
    requires Inv(s) && s.stack != []
    ensures var top := s.stack[|s.stack| - 1];
      top < s.added && top !in s.ran && forall id: nat :: id < s.added && id !in s.ran ==> id <= top
  {
    var top := s.stack[|s.stack| - 1];
    assert top in s.stack;
    forall id: nat | id in s.stack ensures id <= top {
      var k :| 0 <= k < |s.stack| && s.stack[k] == id;
    }
  }

  /** When a drain ends, everything registered by then has been released: nothing late is dropped. */
  lemma DrainLeavesNothing(events: seq<Event>)
    requires After(events + [End]).Some?
    ensures var s := After(events + [End]).value;
      s.running == None && forall id: nat :: id < s.added ==> id in s.ran
  {
    hide After;
    assert After(events + [End]) == Apply(After(events).value, End) && After(events).Some? by { Last(events, End); }
    EachRunsOnce(events);
  }

  lemma Last(events: seq<Event>, e: Event)
    requires After(events + [e]).Some?
    ensures After(events).Some? && After(events + [e]) == Apply(After(events).value, e)
  {
    assert (events + [e])[..|events|] == events;
  }

  // ---------------------------------------------------------------------------------- failures

  /** The releases that threw, in order. */
  function Thrown(events: seq<Event>): seq<nat>
    requires After(events).Some?
    decreases |events|
  {
    if events == [] then []
    else
      var n := |events| - 1;
      Thrown(events[..n]) +
      if events[n] == Finish(true) then [After(events[..n]).value.running.value] else []
  }

  function Flatten(reports: seq<seq<nat>>): seq<nat> {
    if reports == [] then [] else Flatten(reports[..|reports| - 1]) + reports[|reports| - 1]
  }

  /** Every throw is reported by exactly one drain, or will be by the one under way; none is hidden by another. */
  lemma {:induction false} EveryThrowReported(events: seq<Event>)
    requires After(events).Some?
    ensures var s := After(events).value; Flatten(s.reports) + s.errors == Thrown(events)
    decreases |events|
  {
    hide Inv;
    if events != [] {
      var n := |events| - 1;
      var s, e := After(events[..n]).value, events[n];
      EveryThrowReported(events[..n]);
      EachRunsOnce(events[..n]);
      ReportedStep(s, e);
    }
  }

  lemma ReportedStep(s: State, e: Event)
    requires Inv(s) && Apply(s, e).Some?
    ensures var s', thrown := Apply(s, e).value, if e == Finish(true) then [s.running.value] else [];
      Flatten(s'.reports) + s'.errors == Flatten(s.reports) + s.errors + thrown
  {
    var s' := Apply(s, e).value;
    if e == End {
      assert s'.reports[..|s.reports|] == s.reports;
      assert Flatten(s'.reports) == Flatten(s.reports) + s.errors;
    }
  }

  // ---------------------------------------------------------------------------------- progress

  predicate Internal(e: Event) { !e.Add? && !e.DisposeAll? }

  function Work(s: State): nat
    requires |s.reports| + (if s.active then 1 else 0) <= s.calls
  {
    2 * |s.stack| + 2 * (s.calls - |s.reports|) + (if s.running.Some? then 1 else 0) - if s.active then 1 else 0
  }

  /** Until every call is answered some step is possible, and without new work the steps run out. */
  lemma DrainsFinish(s: State)
    requires Inv(s)
    ensures |s.reports| < s.calls ==> exists e :: Internal(e) && Apply(s, e).Some?
    ensures forall e :: Internal(e) && Apply(s, e).Some? ==> Inv(Apply(s, e).value) && Work(Apply(s, e).value) < Work(s)
  {
    if |s.reports| < s.calls {
      var e :=
        if !s.active then Begin else if s.running.Some? then Finish(false) else if s.stack != [] then Pop else End;
      assert Internal(e) && Apply(s, e).Some?;
    }
    hide Inv, Apply, Work;
    forall e | Internal(e) && Apply(s, e).Some? ensures Inv(Apply(s, e).value) && Work(Apply(s, e).value) < Work(s) {
      ApplyInv(s, e);
      InvCalls(s);
      LessWork(s, e);
    }
  }

  lemma InvCalls(s: State)
    requires Inv(s)
    ensures |s.reports| + (if s.active then 1 else 0) <= s.calls
  {}

  lemma LessWork(s: State, e: Event)
    requires Inv(s) && Internal(e) && Apply(s, e).Some?
    ensures Inv(Apply(s, e).value) && Work(Apply(s, e).value) < Work(s)
  {
    ApplyInv(s, e);
  }
}
