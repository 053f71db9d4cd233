/**
 * The one path that force-pushes: fetch, rebase, resolve conflicts, push. Exit codes, what git lists
 * as unmerged, what the resolver does, when the run is cancelled and when git is left in the middle
 * of a rebase are all arbitrary; every step is recorded in order.
 */
module CiFix {
  import opened Options
  import opened Text

  const MAX_ATTEMPTS := 2

  datatype Step =
    | Fetch
    | Rebase
    | ListUnmerged
    | Resolve(files: seq<string>, attempt: nat)
    | Continue
    | Abort
    | Push

  /**
   * How step `n` of a run ends: its exit code, its output, the resolver's answer and whether git is
   * in the middle of a rebase behind it. `cancelled(n)`: the run is cancelled when `n` steps are done.
   */
  datatype World = World(exit: nat -> int, stdout: nat -> string, resolves: nat -> bool,
                         leaves: nat -> bool, cancelled: nat -> bool, startsRebasing: bool)

  datatype Reason =
    | ForcePushForbidden
    | RunCancelled
    | FetchFailed
    | NeedsManualResolution
    | ResolverGaveUp(attempt: nat)
    | StillConflicts
    | PushFailed
    | AbortFailedTwice(reason: Reason)

  datatype PushResult = Fixed | Blocked(reason: Reason)

  /** The paths in the output of step `n`; none when git fails. */
  function Unmerged(w: World, n: nat): seq<string> {
    if w.exit(n) != 0 then [] else NonBlank(Split(w.stdout(n), "\n"))
  }

  function NonBlank(lines: seq<string>): (paths: seq<string>)
    ensures forall p :: p in paths ==> p != ""
  {
    if lines == [] then [] else (if Trim(lines[0]) == "" then [] else [Trim(lines[0])]) + NonBlank(lines[1..])
  }

  // ------------------------------------------------------------------------------ what is done

  function AbortAndBlock(w: World, log: seq<Step>, reason: Reason): (PushResult, seq<Step>) {
    if w.exit(|log|) == 0 then (Blocked(reason), log + [Abort])
    else (Blocked(if w.exit(|log| + 1) == 0 then reason else AbortFailedTwice(reason)), log + [Abort, Abort])
  }

  function ResolveFrom(w: World, log: seq<Step>, attempt: nat): (PushResult, seq<Step>)
    decreases MAX_ATTEMPTS + 1 - attempt
  {
    var n := |log|;
    if attempt > MAX_ATTEMPTS then AbortAndBlock(w, log, StillConflicts)
    else if w.cancelled(n) then AbortAndBlock(w, log, RunCancelled)
    else if Unmerged(w, n) == [] then AbortAndBlock(w, log + [ListUnmerged], NeedsManualResolution)
    else
      var tried := log + [ListUnmerged, Resolve(Unmerged(w, n), attempt)];
      if !w.resolves(n + 1) then AbortAndBlock(w, tried, ResolverGaveUp(attempt))
      else if Unmerged(w, n + 2) != [] then ResolveFrom(w, tried + [ListUnmerged], attempt + 1)
      else if w.cancelled(n + 3) then AbortAndBlock(w, tried + [ListUnmerged], RunCancelled)
      else if w.exit(n + 3) == 0 then (Fixed, tried + [ListUnmerged, Continue])
      else ResolveFrom(w, tried + [ListUnmerged, Continue], attempt + 1)
  }

  function ResolveConflicts(w: World, log: seq<Step>, resolver: bool): (PushResult, seq<Step>) {
    if w.cancelled(|log|) then AbortAndBlock(w, log, RunCancelled)
    else if !resolver then AbortAndBlock(w, log, NeedsManualResolution)
    else ResolveFrom(w, log, 1)
  }

  function RebaseAndPush(w: World, allowed: bool, resolver: bool): (PushResult, seq<Step>) {
    if !allowed then (Blocked(ForcePushForbidden), [])
    else if w.cancelled(0) then (Blocked(RunCancelled), [])
    else if w.cancelled(1) then (Blocked(RunCancelled), [Fetch])
    else if w.exit(0) != 0 then (Blocked(FetchFailed), [Fetch])
    else
      var (r, log) :=
        if w.exit(1) == 0 then (Fixed, [Fetch, Rebase]) else ResolveConflicts(w, [Fetch, Rebase], resolver);
      if r.Blocked? then (r, log)
      else if w.cancelled(|log|) then (Blocked(RunCancelled), log)
      else (if w.exit(|log|) == 0 then Fixed else Blocked(PushFailed), log + [Push])
  }

  // --------------------------------------------------------------------------- the session in place

  class Session {
    const w: World
    var log: seq<Step>

    constructor (w: World)
      ensures this.w == w && log == []
    {
      this.w := w;
      log := [];
    }

    method Run(s: Step) returns (exit: int)
      modifies this
      ensures log == old(log) + [s] && exit == w.exit(|old(log)|)
    {
      exit := w.exit(|log|);
      log := log + [s];
    }

    method UnmergedPaths() returns (paths: seq<string>)
      modifies this
      ensures log == old(log) + [ListUnmerged] && paths == Unmerged(w, |old(log)|)
    {
      var n := |log|;
      var exit := Run(ListUnmerged);
      paths := Unmerged(w, n);
    }

    method AbortRebase(reason: Reason) returns (r: PushResult)
      modifies this
      ensures (r, log) == AbortAndBlock(w, old(log), reason)
    {
      var abort := Run(Abort);
      if abort != 0 {
        var retry := Run(Abort);
        assert log == old(log) + [Abort, Abort];
        if retry != 0 { return Blocked(AbortFailedTwice(reason)); }
      }
      return Blocked(reason);
    }

    method ResolveRebaseConflicts(resolver: bool) returns (r: PushResult)
      modifies this
      ensures (r, log) == ResolveConflicts(w, old(log), resolver)
    {
      hide AbortAndBlock, Unmerged, ResolveFrom;
      if w.cancelled(|log|) { r := AbortRebase(RunCancelled); return; }
      if !resolver { r := AbortRebase(NeedsManualResolution); return; }
      ghost var goal := ResolveFrom(w, log, 1);
      for attempt := 1 to MAX_ATTEMPTS + 1
        invariant goal == ResolveFrom(w, log, attempt)
      {
        ResolveStep(w, log, attempt);
        if w.cancelled(|log|) { r := AbortRebase(RunCancelled); return; }
        var conflicted := UnmergedPaths();
        if conflicted == [] { r := AbortRebase(NeedsManualResolution); return; }
        var asked := |log|;
        var _ := Run(Resolve(conflicted, attempt));
        if !w.resolves(asked) { r := AbortRebase(ResolverGaveUp(attempt)); return; }
        var remaining := UnmergedPaths();
        if remaining != [] { continue; }
        if w.cancelled(|log|) { r := AbortRebase(RunCancelled); return; }
        var cont := Run(Continue);
        if cont == 0 { return Fixed; }
      }
      ResolveEnd(w, log);
      r := AbortRebase(StillConflicts);
    }

    method RebaseAndForcePush(allowed: bool, resolver: bool) returns (r: PushResult)
      requires log == []
      modifies this
      ensures (r, log) == RebaseAndPush(w, allowed, resolver)
    {
      hide ResolveConflicts;
      if !allowed { return Blocked(ForcePushForbidden); }
      if w.cancelled(|log|) { return Blocked(RunCancelled); }
      var fetch := Run(Fetch);
      assert log == [Fetch];
      if w.cancelled(|log|) { return Blocked(RunCancelled); }
      if fetch != 0 { return Blocked(FetchFailed); }
      var rebase := Run(Rebase);
      assert log == [Fetch, Rebase];
      if rebase != 0 {
        r := ResolveRebaseConflicts(resolver);
        if r.Blocked? { return; }
      }
      if w.cancelled(|log|) { return Blocked(RunCancelled); }
      var push := Run(Push);
      r := if push != 0 then Blocked(PushFailed) else Fixed;
    }
  }

  /** One round of the loop, with the steps it takes one by one. */
  lemma ResolveStep(w: World, log: seq<Step>, attempt: nat)
    requires 1 <= attempt <= MAX_ATTEMPTS
    ensures var l1 := log + [ListUnmerged];
      var l2 := l1 + [Resolve(Unmerged(w, |log|), attempt)];
      var l3 := l2 + [ListUnmerged];
      var l4 := l3 + [Continue];
      ResolveFrom(w, log, attempt) ==
        if w.cancelled(|log|) then AbortAndBlock(w, log, RunCancelled)
        else if Unmerged(w, |log|) == [] then AbortAndBlock(w, l1, NeedsManualResolution)
        else if !w.resolves(|l1|) then AbortAndBlock(w, l2, ResolverGaveUp(attempt))
        else if Unmerged(w, |l2|) != [] then ResolveFrom(w, l3, attempt + 1)
        else if w.cancelled(|l3|) then AbortAndBlock(w, l3, RunCancelled)
        else if w.exit(|l3|) == 0 then (Fixed, l4)
        else ResolveFrom(w, l4, attempt + 1)
  {
    hide AbortAndBlock, Unmerged;
    var files := Unmerged(w, |log|);
    var tried := log + [ListUnmerged, Resolve(files, attempt)];
    assert log + [ListUnmerged] + [Resolve(files, attempt)] == tried;
    assert tried + [ListUnmerged] + [Continue] == tried + [ListUnmerged, Continue];
  }

  lemma ResolveEnd(w: World, log: seq<Step>)
    ensures ResolveFrom(w, log, MAX_ATTEMPTS + 1) == AbortAndBlock(w, log, StillConflicts)
  {}

  // ------------------------------------------------------------------------ what every run observes

  /** Whether git is in the middle of a rebase behind the first `n` steps. */
  function Rebasing(w: World, log: seq<Step>, n: nat): bool
    requires n <= |log|
  {
    if n == 0 then w.startsRebasing
    else
      match log[n - 1]
      case Fetch => Rebasing(w, log, n - 1)
      case ListUnmerged => Rebasing(w, log, n - 1)
      case Push => Rebasing(w, log, n - 1)
      case Resolve(_, _) => w.leaves(n - 1)
      case _ => w.exit(n - 1) != 0 && w.leaves(n - 1)
  }

  /** The last step finished a rebase. */
  ghost predicate JustRebased(w: World, log: seq<Step>) {
    log != [] && (log[|log| - 1] == Rebase || log[|log| - 1] == Continue) && w.exit(|log| - 1) == 0
  }

  /** Step `k` may stand in a log without a push. */
  ghost predicate Allowed(w: World, log: seq<Step>, k: nat)
    requires k < |log|
  {
    match log[k]
    case Resolve(files, attempt) =>
      && 1 <= attempt <= MAX_ATTEMPTS && files != [] && k > 0 && log[k - 1] == ListUnmerged
      && files == Unmerged(w, k - 1) && !w.cancelled(k - 1)
    case Continue =>
      && k > 1 && log[k - 1] == ListUnmerged && Unmerged(w, k - 1) == [] && !w.cancelled(k)
      && log[k - 2].Resolve? && w.resolves(k - 2)
    case Push => false
    case _ => true
  }

  ghost predicate Disciplined(w: World, log: seq<Step>) {
    forall k: nat :: k < |log| ==> Allowed(w, log, k)
  }

  function Resolves(log: seq<Step>): nat {
    if log == [] then 0 else Resolves(log[..|log| - 1]) + if log[|log| - 1].Resolve? then 1 else 0
  }

  lemma ResolvesAppend(log: seq<Step>, s: Step)
    ensures Resolves(log + [s]) == Resolves(log) + if s.Resolve? then 1 else 0
  {
    assert (log + [s])[..|log|] == log;
  }

  lemma DisciplinedAppend(w: World, log: seq<Step>, s: Step)
    requires Disciplined(w, log) && Allowed(w, log + [s], |log|)
    ensures Disciplined(w, log + [s])
  {
    hide Unmerged;
    var more := log + [s];
    forall k: nat | k < |log| ensures Allowed(w, more, k) {
      assert Allowed(w, log, k) && more[k] == log[k];
    }
  }

  /** The end of one conflict resolution: fixed behind a finished rebase, or blocked with none left. */
  ghost predicate ResolvedWell(w: World, r: PushResult, log: seq<Step>) {
    && Disciplined(w, log)
    && (r.Fixed? ==> JustRebased(w, log))
    && (r.Blocked? ==> log != [] && (Rebasing(w, log, |log|) <==> r.reason.AbortFailedTwice? && w.leaves(|log| - 1)))
  }

  lemma AbortEnds(w: World, log: seq<Step>, reason: Reason)
    requires Disciplined(w, log) && !reason.AbortFailedTwice?
    ensures var (r, l) := AbortAndBlock(w, log, reason); ResolvedWell(w, r, l) && Resolves(l) == Resolves(log)
    ensures AbortAndBlock(w, log, reason).0.Blocked?
  {
    hide Disciplined, Resolves;
    var once := log + [Abort];
    DisciplinedAppend(w, log, Abort);
    DisciplinedAppend(w, once, Abort);
    ResolvesAppend(log, Abort);
    ResolvesAppend(once, Abort);
    assert once + [Abort] == log + [Abort, Abort];
  }

  lemma {:induction false} ResolveEndsWell(w: World, log: seq<Step>, attempt: nat)
    requires Disciplined(w, log) && 1 <= attempt <= MAX_ATTEMPTS + 1
    ensures var (r, l) := ResolveFrom(w, log, attempt);
      ResolvedWell(w, r, l) && Resolves(l) <= Resolves(log) + MAX_ATTEMPTS + 1 - attempt
    decreases MAX_ATTEMPTS + 1 - attempt
  {
    hide Disciplined, AbortAndBlock, Unmerged, ResolveFrom, Resolves, ResolvedWell;
    var files := Unmerged(w, |log|);
    var l1 := log + [ListUnmerged];
    var l2 := l1 + [Resolve(files, attempt)];
    var l3 := l2 + [ListUnmerged];
    var l4 := l3 + [Continue];
    AbortEnds(w, log, RunCancelled);
    AbortEnds(w, log, StillConflicts);
    ResolvesAppend(log, ListUnmerged);
    ResolvesAppend(l1, Resolve(files, attempt));
    ResolvesAppend(l2, ListUnmerged);
    ResolvesAppend(l3, Continue);
    if attempt > MAX_ATTEMPTS {
      ResolveEnd(w, log);
    } else {
      ResolveStep(w, log, attempt);
      DisciplinedAppend(w, log, ListUnmerged);
      AbortEnds(w, l1, NeedsManualResolution);
      if !w.cancelled(|log|) && files != [] {
        DisciplinedAppend(w, l1, Resolve(files, attempt));
        DisciplinedAppend(w, l2, ListUnmerged);
        AbortEnds(w, l2, ResolverGaveUp(attempt));
        AbortEnds(w, l3, RunCancelled);
        if w.resolves(|l1|) {
          if Unmerged(w, |l2|) != [] {
            ResolveEndsWell(w, l3, attempt + 1);
          } else if !w.cancelled(|l3|) {
            DisciplinedAppend(w, l3, Continue);
            FixedWell(w, l4);
            if w.exit(|l3|) != 0 { ResolveEndsWell(w, l4, attempt + 1); }
          }
        }
      }
    }
  }

  lemma FixedWell(w: World, log: seq<Step>)
    requires Disciplined(w, log)
    ensures JustRebased(w, log) ==> ResolvedWell(w, Fixed, log)
  {
    hide Disciplined, JustRebased;
  }

  /** Everything in front of the push. */
  function BeforePush(log: seq<Step>): seq<Step> {
    if log != [] && log[|log| - 1] == Push then log[..|log| - 1] else log
  }

  /**
   * The force-push is the last step, so it is issued at most once; only when policy allows it, with the
   * run not cancelled, right behind a rebase or a continue that exited 0, with no rebase in progress;
   * the result says fixed exactly when it succeeded.
   */
  lemma PushDiscipline(w: World, allowed: bool, resolver: bool)
    ensures var (r, log) := RebaseAndPush(w, allowed, resolver);
      var before := BeforePush(log);
      && Disciplined(w, before)
      && (log != before ==>
           allowed && !w.cancelled(|before|) && JustRebased(w, before) && !Rebasing(w, before, |before|))
      && (r.Fixed? <==> log != before && w.exit(|before|) == 0)
  {
    hide ResolveConflicts, Disciplined, Rebasing, JustRebased, BeforePush;
    var start := [Fetch, Rebase];
    StartDisciplined(w);
    ConflictsEndWell(w, start, resolver);
    var (r, log) := if w.exit(1) == 0 then (Fixed, start) else ResolveConflicts(w, start, resolver);
    RebasedIsDone(w, log);
    assert w.exit(1) == 0 ==> JustRebased(w, log) by { CleanRebased(w); }
    LastIsNoPush(w, log);
    LastIsNoPush(w, []);
    LastIsNoPush(w, [Fetch]);
    PushLast(log);
  }

  lemma CleanRebased(w: World)
    ensures w.exit(1) == 0 ==> JustRebased(w, [Fetch, Rebase])
  {}

  lemma PushLast(log: seq<Step>)
    ensures BeforePush(log + [Push]) == log
  {}

  lemma LastIsNoPush(w: World, log: seq<Step>)
    requires Disciplined(w, log)
    ensures BeforePush(log) == log
  {
    if log != [] { assert Allowed(w, log, |log| - 1); }
  }

  lemma RebasedIsDone(w: World, log: seq<Step>)
    ensures JustRebased(w, log) ==> !Rebasing(w, log, |log|)
  {}

  lemma ConflictsEndWell(w: World, log: seq<Step>, resolver: bool)
    requires Disciplined(w, log)
    ensures var (r, l) := ResolveConflicts(w, log, resolver);
      ResolvedWell(w, r, l) && Resolves(l) <= Resolves(log) + MAX_ATTEMPTS
  {
    hide Disciplined, AbortAndBlock, ResolveFrom, Resolves, ResolvedWell;
    AbortEnds(w, log, RunCancelled);
    AbortEnds(w, log, NeedsManualResolution);
    ResolveEndsWell(w, log, 1);
  }

  /** The run gets as far as its own rebase. */
  predicate Begins(w: World, allowed: bool) {
    allowed && !w.cancelled(0) && !w.cancelled(1) && w.exit(0) == 0
  }

  /**
   * A blocked run leaves git in the middle of a rebase if and only if aborting failed twice, as it then
   * reports, and did leave it there, or it found a rebase in progress and stopped before its own.
   */
  lemma BlockedMidRebaseIff(w: World, allowed: bool, resolver: bool)
    requires RebaseAndPush(w, allowed, resolver).0.Blocked?
    ensures var (r, log) := RebaseAndPush(w, allowed, resolver);
      Rebasing(w, log, |log|) <==>
        (r.reason.AbortFailedTwice? && log != [] && w.leaves(|log| - 1)) || (w.startsRebasing && !Begins(w, allowed))
  {
    hide ResolveConflicts, Unmerged, Disciplined, Resolves;
    var start := [Fetch, Rebase];
    StartDisciplined(w);
    ConflictsEndWell(w, start, resolver);
    var (r, log) := if w.exit(1) == 0 then (Fixed, start) else ResolveConflicts(w, start, resolver);
    RebasedIsDone(w, log);
    RebasingPrefix(w, log, [Push]);
    assert Rebasing(w, [Fetch], 1) == w.startsRebasing;
    assert w.exit(1) == 0 ==> JustRebased(w, start) by { CleanRebased(w); }
  }

  /** A run cancelled before it starts, in a checkout that is already in the middle of a rebase. */
  lemma FoundRebaseStays()
    ensures var w := World(n => 0, n => "", n => true, n => true, n => true, true);
      RebaseAndPush(w, true, true) == (Blocked(RunCancelled), []) && Rebasing(w, [], 0)
  {}

  lemma StartDisciplined(w: World)
    ensures Disciplined(w, []) && Disciplined(w, [Fetch]) && Disciplined(w, [Fetch, Rebase])
  {}

  lemma {:induction false} RebasingPrefixAt(w: World, log: seq<Step>, more: seq<Step>, n: nat)
    requires n <= |log|
    ensures Rebasing(w, log + more, n) == Rebasing(w, log, n)
  {
    if n > 0 { RebasingPrefixAt(w, log, more, n - 1); }
  }

  lemma RebasingPrefix(w: World, log: seq<Step>, more: seq<Step>)
    requires more == [Push]
    ensures Rebasing(w, log + more, |log| + 1) == Rebasing(w, log, |log|)
  {
    RebasingPrefixAt(w, log, more, |log|);
  }

  /** The resolver runs at most twice. */
  lemma ResolverRunsAtMostTwice(w: World, allowed: bool, resolver: bool)
    ensures Resolves(RebaseAndPush(w, allowed, resolver).1) <= 2
    ensures !resolver ==> Resolves(RebaseAndPush(w, allowed, resolver).1) == 0
  {
    hide ResolveConflicts, Unmerged, Disciplined;
    var start := [Fetch, Rebase];
    StartDisciplined(w);
    ConflictsEndWell(w, start, resolver);
    NoneAtStart();
    var (r, log) := if w.exit(1) == 0 then (Fixed, start) else ResolveConflicts(w, start, resolver);
    ResolvesAppend(log, Push);
    assert !resolver ==> Resolves(log) == 0 by {
      AbortEnds(w, start, RunCancelled);
      AbortEnds(w, start, NeedsManualResolution);
      NoResolver(w, start);
    }
  }

  lemma NoResolver(w: World, log: seq<Step>)
    ensures ResolveConflicts(w, log, false) ==
      AbortAndBlock(w, log, if w.cancelled(|log|) then RunCancelled else NeedsManualResolution)
  {}

  lemma NoneAtStart()
    ensures Resolves([]) == 0 && Resolves([Fetch]) == 0 && Resolves([Fetch, Rebase]) == 0
  {
    var none: seq<Step> := [];
    ResolvesAppend(none, Fetch);
    ResolvesAppend([Fetch], Rebase);
    assert none + [Fetch] == [Fetch] && [Fetch] + [Rebase] == [Fetch, Rebase];
  }

  /** A rebase without conflicts is pushed exactly when policy allows it and no check saw a cancellation. */
  lemma CleanRebasePushesIff(w: World, allowed: bool, resolver: bool)
    requires w.exit(1) == 0
    ensures Push in RebaseAndPush(w, allowed, resolver).1 <==>
      allowed && w.exit(0) == 0 && !w.cancelled(0) && !w.cancelled(1) && !w.cancelled(2)
  {
    hide ResolveConflicts;
    var pushed := [Fetch, Rebase] + [Push];
    assert pushed[2] == Push;
  }

  /** One conflict that the resolver settles at once is pushed like a rebase without conflicts. */
  lemma ResolvedRebasePushes(w: World)
    requires w.exit(0) == 0 && w.exit(1) != 0 && w.exit(5) == 0 && w.exit(6) == 0
    requires !w.cancelled(0) && !w.cancelled(1) && !w.cancelled(2) && !w.cancelled(5) && !w.cancelled(6)
    requires Unmerged(w, 2) != [] && w.resolves(3) && Unmerged(w, 4) == []
    ensures RebaseAndPush(w, true, true).0 == Fixed && Push in RebaseAndPush(w, true, true).1
  {
    hide AbortAndBlock, Unmerged;
    var start := [Fetch, Rebase];
    ResolveStep(w, start, 1);
  }

  // ------------------------------------------------------------- when exactly a run pushes, and why not

  /** An attempt that starts behind `n` steps finds conflicts and the resolver says it settled them. */
  predicate Asked(w: World, n: nat) {
    !w.cancelled(n) && Unmerged(w, n) != [] && w.resolves(n + 1)
  }

  /** And it has: nothing is left unmerged and the rebase goes on to its end. */
  predicate Settles(w: World, n: nat) {
    Asked(w, n) && Unmerged(w, n + 2) == [] && !w.cancelled(n + 3) && w.exit(n + 3) == 0
  }

  predicate GivesUp(w: World, n: nat) {
    !w.cancelled(n) && Unmerged(w, n) != [] && !w.resolves(n + 1)
  }

  predicate FindsNone(w: World, n: nat) {
    !w.cancelled(n) && Unmerged(w, n) == []
  }

  /** Files are left unmerged, or a later commit conflicts: the next attempt starts at `next`. */
  predicate GoesOnTo(w: World, n: nat, next: nat) {
    Asked(w, n) && if Unmerged(w, n + 2) != [] then next == n + 3
                   else next == n + 4 && !w.cancelled(n + 3) && w.exit(n + 3) != 0
  }

  predicate Stops(w: World, n: nat) {
    w.cancelled(n) || (Asked(w, n) && Unmerged(w, n + 2) == [] && w.cancelled(n + 3))
  }

  /** An attempt starts behind `n` steps: the first behind fetch and rebase, the second behind the first. */
  predicate AttemptAt(w: World, n: nat, attempt: nat) {
    if attempt == 1 then n == 2 else attempt == 2 && (n == 5 || n == 6) && GoesOnTo(w, 2, n)
  }

  /** What a run reports, whether or not aborting failed as well. */
  function Cause(r: PushResult): Option<Reason> {
    match r
    case Fixed => None
    case Blocked(AbortFailedTwice(reason)) => Some(reason)
    case Blocked(reason) => Some(reason)
  }

  lemma AbortCause(w: World, log: seq<Step>, reason: Reason)
    requires !reason.AbortFailedTwice?
    ensures Cause(AbortAndBlock(w, log, reason).0) == Some(reason)
    ensures Push !in log ==> Push !in AbortAndBlock(w, log, reason).1
  {}

  /** How the second attempt ends. */
  lemma SecondEnds(w: World, log: seq<Step>)
    requires Push !in log
    ensures var (r, l) := ResolveFrom(w, log, 2);
      var n := |log|;
      && Push !in l
      && (r.Fixed? <==> Settles(w, n)) && (r.Fixed? ==> |l| == n + 4)
      && (Cause(r) == Some(RunCancelled) <==> Stops(w, n))
      && (Cause(r) == Some(NeedsManualResolution) <==> FindsNone(w, n))
      && (Cause(r) == Some(StillConflicts) <==> exists m :: GoesOnTo(w, n, m))
      && (forall k :: Cause(r) == Some(ResolverGaveUp(k)) <==> k == 2 && GivesUp(w, n))
  {
    hide AbortAndBlock, Unmerged;
    ResolveStep(w, log, 2);
    var l1 := log + [ListUnmerged];
    var l2 := l1 + [Resolve(Unmerged(w, |log|), 2)];
    var l3 := l2 + [ListUnmerged];
    var l4 := l3 + [Continue];
    AbortCause(w, log, RunCancelled);
    AbortCause(w, l1, NeedsManualResolution);
    AbortCause(w, l2, ResolverGaveUp(2));
    AbortCause(w, l3, RunCancelled);
    AbortCause(w, l3, StillConflicts);
    AbortCause(w, l4, StillConflicts);
    ResolveEnd(w, l3);
    ResolveEnd(w, l4);
    assert GoesOnTo(w, |log|, |l3|) || GoesOnTo(w, |log|, |l4|) <==> exists m :: GoesOnTo(w, |log|, m);
  }

  /** The last attempt: the second one, or the first when no second follows. */
  predicate LastAttempt(w: World, n: nat, k: nat) {
    AttemptAt(w, n, k) && (k == 1 ==> !GoesOnTo(w, 2, 5) && !GoesOnTo(w, 2, 6))
  }

  lemma SomeLast(w: World) returns (n: nat, k: nat)
    ensures LastAttempt(w, n, k)
  {
    hide Asked;
    n, k := if GoesOnTo(w, 2, 5) then 5 else if GoesOnTo(w, 2, 6) then 6 else 2,
            if GoesOnTo(w, 2, 5) || GoesOnTo(w, 2, 6) then 2 else 1;
  }

  /** How the last attempt, behind `n` steps, ends a resolution. */
  ghost predicate AttemptEnds(w: World, n: nat, k: nat, r: PushResult, l: seq<Step>) {
    && Push !in l
    && (r.Fixed? <==> Settles(w, n)) && (r.Fixed? ==> |l| == n + 4)
    && (Cause(r) == Some(RunCancelled) <==> Stops(w, n))
    && (Cause(r) == Some(NeedsManualResolution) <==> FindsNone(w, n))
    && (Cause(r) == Some(StillConflicts) <==> exists m :: GoesOnTo(w, n, m))
    && forall j :: Cause(r) == Some(ResolverGaveUp(j)) <==> j == k && GivesUp(w, n)
  }

  lemma FirstEnds(w: World)
    requires LastAttempt(w, 2, 1)
    ensures var (r, l) := ResolveFrom(w, [Fetch, Rebase], 1); AttemptEnds(w, 2, 1, r, l)
  {
    hide AbortAndBlock, Unmerged;
    var log := [Fetch, Rebase];
    ResolveStep(w, log, 1);
    var l1 := log + [ListUnmerged];
    var l2 := l1 + [Resolve(Unmerged(w, 2), 1)];
    var l3 := l2 + [ListUnmerged];
    AbortCause(w, log, RunCancelled);
    AbortCause(w, l1, NeedsManualResolution);
    AbortCause(w, l2, ResolverGaveUp(1));
    AbortCause(w, l3, RunCancelled);
  }

  lemma ResolutionEnds(w: World, n: nat, k: nat)
    requires LastAttempt(w, n, k)
    ensures var (r, l) := ResolveFrom(w, [Fetch, Rebase], 1); AttemptEnds(w, n, k, r, l)
  {
    hide AbortAndBlock, Unmerged, ResolveFrom, Settles, Stops, FindsNone, GivesUp;
    if k == 1 {
      FirstEnds(w);
    } else {
      var log := [Fetch, Rebase];
      ResolveStep(w, log, 1);
      var l3 := log + [ListUnmerged] + [Resolve(Unmerged(w, 2), 1)] + [ListUnmerged];
      SecondEnds(w, if n == 5 then l3 else l3 + [Continue]);
    }
  }

  /** The run comes to its own rebase and that stops on a conflict which a resolver is to settle. */
  predicate Conflicted(w: World, allowed: bool, resolver: bool) {
    Begins(w, allowed) && w.exit(1) != 0 && !w.cancelled(2) && resolver
  }

  /**
   * A run pushes exactly when it begins and then rebases without a conflict, or with one that the last
   * attempt settles, and is not cancelled by then.
   */
  lemma PushesIff(w: World, allowed: bool, resolver: bool, n: nat, k: nat)
    requires LastAttempt(w, n, k)
    ensures Push in RebaseAndPush(w, allowed, resolver).1 <==>
      if w.exit(1) == 0 then Begins(w, allowed) && !w.cancelled(2)
      else Conflicted(w, allowed, resolver) && Settles(w, n) && !w.cancelled(n + 4)
  {
    hide ResolveFrom, AbortAndBlock, Settles, LastAttempt, AttemptEnds;
    ResolutionEnds(w, n, k);
    var (r, l) := ResolveFrom(w, [Fetch, Rebase], 1);
    AttemptPushes(w, n, k, r, l);
    AbortCause(w, [Fetch, Rebase], RunCancelled);
    AbortCause(w, [Fetch, Rebase], NeedsManualResolution);
    if w.exit(1) == 0 {
      CleanRebasePushesIff(w, allowed, resolver);
    } else if Begins(w, allowed) && !w.cancelled(2) && resolver && r.Fixed? && !w.cancelled(|l|) {
      var log := l + [Push];
      assert log[|l|] == Push && RebaseAndPush(w, allowed, resolver).1 == log;
    }
  }

  lemma AttemptPushes(w: World, n: nat, k: nat, r: PushResult, l: seq<Step>)
    requires AttemptEnds(w, n, k, r, l)
    ensures Push !in l && (r.Fixed? <==> Settles(w, n)) && (r.Fixed? ==> |l| == n + 4)
  {}

  /** Each reason a blocked run gives is given exactly when it is the case. */
  lemma CauseIff(w: World, allowed: bool, resolver: bool, n: nat, k: nat)
    requires LastAttempt(w, n, k)
    ensures var (r, log) := RebaseAndPush(w, allowed, resolver);
      var conflicted := Conflicted(w, allowed, resolver);
      && (Cause(r) == Some(ForcePushForbidden) <==> !allowed)
      && (Cause(r) == Some(FetchFailed) <==> allowed && !w.cancelled(0) && !w.cancelled(1) && w.exit(0) != 0)
      && (Cause(r) == Some(PushFailed) <==> Push in log && w.exit(|log| - 1) != 0)
      && (Cause(r) == Some(NeedsManualResolution) <==>
            Begins(w, allowed) && w.exit(1) != 0 && !w.cancelled(2) && (!resolver || FindsNone(w, n)))
      && (Cause(r) == Some(StillConflicts) <==> conflicted && exists m :: GoesOnTo(w, n, m))
      && forall j :: Cause(r) == Some(ResolverGaveUp(j)) <==> conflicted && j == k && GivesUp(w, n)
  {
    hide ResolveFrom, AbortAndBlock, Settles, Stops, FindsNone, GivesUp, GoesOnTo, LastAttempt, AttemptAt;
    ResolutionEnds(w, n, k);
    OtherCauses(w);
    AbortCause(w, [Fetch, Rebase], RunCancelled);
    AbortCause(w, [Fetch, Rebase], NeedsManualResolution);
    var l := ResolveFrom(w, [Fetch, Rebase], 1).1;
    assert Push !in l && Push !in [Fetch, Rebase] && Push !in [Fetch];
    assert (l + [Push])[|l|] == Push && ([Fetch, Rebase] + [Push])[2] == Push;
  }

  /** A resolution ends for no reason of the run around it. */
  lemma OtherCauses(w: World)
    ensures var c := Cause(ResolveFrom(w, [Fetch, Rebase], 1).0);
      c != Some(ForcePushForbidden) && c != Some(FetchFailed) && c != Some(PushFailed)
  {
    var log: seq<Step> := [Fetch, Rebase];
    CausesInside(w, log, 1);
  }

  lemma NoOtherCause(w: World, log: seq<Step>, reason: Reason)
    requires !reason.AbortFailedTwice? && reason !in {ForcePushForbidden, FetchFailed, PushFailed}
    ensures var c := Cause(AbortAndBlock(w, log, reason).0);
      c != Some(ForcePushForbidden) && c != Some(FetchFailed) && c != Some(PushFailed)
  {
    AbortCause(w, log, reason);
    hide AbortAndBlock, Cause;
  }

  lemma {:induction false} CausesInside(w: World, log: seq<Step>, attempt: nat)
    requires 1 <= attempt <= MAX_ATTEMPTS + 1
    ensures var c := Cause(ResolveFrom(w, log, attempt).0);
      c != Some(ForcePushForbidden) && c != Some(FetchFailed) && c != Some(PushFailed)
    decreases MAX_ATTEMPTS + 1 - attempt
  {
    hide AbortAndBlock, Unmerged, ResolveFrom, Cause;
    if attempt > MAX_ATTEMPTS {
      ResolveEnd(w, log);
      NoOtherCause(w, log, StillConflicts);
    } else {
      var l1 := log + [ListUnmerged];
      var l2 := l1 + [Resolve(Unmerged(w, |log|), attempt)];
      var l3 := l2 + [ListUnmerged];
      ResolveStep(w, log, attempt);
      NoOtherCause(w, log, RunCancelled);
      NoOtherCause(w, l1, NeedsManualResolution);
      NoOtherCause(w, l2, ResolverGaveUp(attempt));
      NoOtherCause(w, l3, RunCancelled);
      FixedHasNoCause();
      CausesInside(w, l3, attempt + 1);
      CausesInside(w, l3 + [Continue], attempt + 1);
    }
  }

  lemma FixedHasNoCause()
    ensures Cause(Fixed) == None
  {}

  // ---------------------------------------------------------------------- giving a rebase up, and what git lists

  /** Aborting is tried at most twice, again only when it failed, and last of all. */
  ghost predicate EndsAborting(w: World, log: seq<Step>, front: nat, twice: bool) {
    && front < |log| && log[front] == Abort
    && if w.exit(front) == 0 then |log| == front + 1 && !twice
       else |log| == front + 2 && log[front + 1] == Abort && (twice <==> w.exit(front + 1) != 0)
  }

  /**
   * A run that stops on a conflict it could not settle gives its rebase up: behind all other steps it
   * aborts, a second time when the first fails, and says so when that fails too.
   */
  lemma UnsettledAborts(w: World, allowed: bool, resolver: bool, n: nat, k: nat) returns (front: nat)
    requires LastAttempt(w, n, k) && Begins(w, allowed) && w.exit(1) != 0
    requires !(Conflicted(w, allowed, resolver) && Settles(w, n))
    ensures var (r, log) := RebaseAndPush(w, allowed, resolver);
      && r.Blocked? && EndsAborting(w, log, front, r.reason.AbortFailedTwice?)
      && 2 <= front <= |log| && forall i :: 0 <= i < front ==> log[i] != Abort
  {
    hide ResolveFrom, AbortAndBlock, Settles, LastAttempt, AttemptEnds, EndsAborting;
    var start: seq<Step> := [Fetch, Rebase];
    ResolutionEnds(w, n, k);
    var (r, l) := ResolveFrom(w, start, 1);
    AttemptPushes(w, n, k, r, l);
    AbortIsLast(w, start, RunCancelled);
    AbortIsLast(w, start, NeedsManualResolution);
    front := 2;
    if !w.cancelled(2) && resolver {
      front := BlockedAborts(w, start, 1);
    }
  }

  lemma AbortIsLast(w: World, log: seq<Step>, reason: Reason)
    requires Abort !in log && !reason.AbortFailedTwice?
    ensures var (r, l) := AbortAndBlock(w, log, reason);
      && r.Blocked? && EndsAborting(w, l, |log|, r.reason.AbortFailedTwice?)
      && |log| <= |l| && forall i :: 0 <= i < |log| ==> l[i] != Abort
  {}

  lemma {:induction false} BlockedAborts(w: World, log: seq<Step>, attempt: nat) returns (front: nat)
    requires Abort !in log && 1 <= attempt <= MAX_ATTEMPTS + 1
    ensures var (r, l) := ResolveFrom(w, log, attempt);
      r.Blocked? ==>
        && |log| <= front <= |l| && EndsAborting(w, l, front, r.reason.AbortFailedTwice?)
        && forall i :: 0 <= i < front ==> l[i] != Abort
    decreases MAX_ATTEMPTS + 1 - attempt
  {
    hide AbortAndBlock, Unmerged, EndsAborting, ResolveFrom;
    var l1 := log + [ListUnmerged];
    var l2 := l1 + [Resolve(Unmerged(w, |log|), attempt)];
    var l3 := l2 + [ListUnmerged];
    var l4 := l3 + [Continue];
    forall l: seq<Step>, reason: Reason | Abort !in l && !reason.AbortFailedTwice?
      ensures var (r, l') := AbortAndBlock(w, l, reason);
        && r.Blocked? && EndsAborting(w, l', |l|, r.reason.AbortFailedTwice?)
        && |l| <= |l'| && forall i :: 0 <= i < |l| ==> l'[i] != Abort
    {
      AbortIsLast(w, l, reason);
    }
    if attempt > MAX_ATTEMPTS {
      ResolveEnd(w, log);
      front := |log|;
    } else {
      ResolveStep(w, log, attempt);
      if w.cancelled(|log|) {
        front := |log|;
      } else if Unmerged(w, |log|) == [] {
        front := |l1|;
      } else if !w.resolves(|l1|) {
        front := |l2|;
      } else if Unmerged(w, |l2|) != [] {
        front := BlockedAborts(w, l3, attempt + 1);
      } else if w.cancelled(|l3|) {
        front := |l3|;
      } else {
        front := BlockedAborts(w, l4, attempt + 1);
      }
    }
  }

  /** The paths are the lines that are not blank, trimmed, in order: `at` lists where they stand. */
  ghost predicate PathsAt(lines: seq<string>, paths: seq<string>, at: seq<nat>) {
    && Chosen(at, |lines|, (i: nat) => i < |lines| && !Blank(lines[i]))
    && |paths| == |at| && forall k :: 0 <= k < |at| ==> at[k] < |lines| && paths[k] == Trim(lines[at[k]])
  }

  /** What git lists as unmerged: nothing when it fails, else every path of its output. */
  lemma UnmergedIs(w: World, n: nat) returns (at: seq<nat>)
    ensures w.exit(n) != 0 ==> Unmerged(w, n) == []
    ensures w.exit(n) == 0 ==> PathsAt(Split(w.stdout(n), "\n"), Unmerged(w, n), at)
  {
    hide NonBlank, PathsAt, Split;
    at := NonBlankIs(Split(w.stdout(n), "\n"));
  }

  lemma {:induction false} NonBlankIs(lines: seq<string>) returns (at: seq<nat>)
    ensures PathsAt(lines, NonBlank(lines), at)
    decreases |lines|
  {
    hide Trim, Blank;
    if lines == [] {
      at := [];
    } else {
      hide PathsAt;
      var later := NonBlankIs(lines[1..]);
      TrimBlank(lines[0]);
      at := PathsFront(lines, NonBlank(lines[1..]), later);
    }
  }

  lemma PathsFront(lines: seq<string>, paths: seq<string>, later: seq<nat>) returns (at: seq<nat>)
    requires lines != [] && PathsAt(lines[1..], paths, later)
    ensures PathsAt(lines, (if Blank(lines[0]) then [] else [Trim(lines[0])]) + paths, at)
  {
    hide Trim, Blank;
    var rest := lines[1..];
    ChosenLater(later, |rest|, (i: nat) => i < |rest| && !Blank(rest[i]),
                (i: nat) => i < |lines| && !Blank(lines[i]));
    hide Chosen;
    at := (if Blank(lines[0]) then [] else [0]) + Shifted(later);
  }
}
