/**
 * Waiting for the checks of a pull request. What each read brings, how the clock moves and when the
 * run is cancelled are arbitrary; the verdict is described from the history of the reads alone.
 */
module ChecksPoller {
  import opened Options
  import opened Text

  // -------------------------------------------------------------------------------- one read

  datatype Bucket = Pass | Fail | Pending | Cancel | Skipping

  datatype Row = Row(bucket: Bucket, name: string, description: string)

  datatype Status = Success | Failure | StillPending | Cancelled | Skipped

  datatype FailedCheck = FailedCheck(name: string, status: Status)

  datatype CheckSummary = CheckSummary(name: string, bucket: Bucket)

  /** Whether the whitelist tolerates a failure of this row. */
  type Tolerance = Row -> bool

  function EffectiveStatus(tol: Tolerance, row: Row): Status {
    match row.bucket
    case Pass => Success
    case Pending => StillPending
    case Skipping => Skipped
    case Fail => if tol(row) then Skipped else Failure
    case Cancel => if tol(row) then Skipped else Cancelled
  }

  predicate Failing(tol: Tolerance, row: Row) {
    (row.bucket.Fail? || row.bucket.Cancel?) && !tol(row)
  }

  /** Passed, skipped or tolerated. */
  predicate Settled(tol: Tolerance, row: Row) {
    !row.bucket.Pending? && !Failing(tol, row)
  }

  ghost predicate SomeFailing(tol: Tolerance, rows: seq<Row>) {
    exists row :: row in rows && Failing(tol, row)
  }

  ghost predicate AllSettled(tol: Tolerance, rows: seq<Row>) {
    rows != [] && forall row :: row in rows ==> Settled(tol, row)
  }

  method AggregateChecks(tol: Tolerance, rows: seq<Row>) returns (s: Status)
    ensures s.Failure? || s.Cancelled? <==> SomeFailing(tol, rows)
    ensures s.Success? <==> AllSettled(tol, rows)
    ensures s != Skipped
  {
    if rows == [] { return StillPending; }
    var pending := false;
    for i := 0 to |rows|
      invariant forall k :: 0 <= k < i ==> !Failing(tol, rows[k])
      invariant pending <==> exists k :: 0 <= k < i && rows[k].bucket.Pending?
    {
      var status := EffectiveStatus(tol, rows[i]);
      if status == Failure || status == Cancelled {
        assert rows[i] in rows && Failing(tol, rows[i]);
        return status;
      }
      if status == StillPending { pending := true; }
    }
    if pending {
      var k :| 0 <= k < |rows| && rows[k].bucket.Pending?;
      assert rows[k] in rows && !Settled(tol, rows[k]);
      return StillPending;
    }
    return Success;
  }

  function FailedChecks(tol: Tolerance, rows: seq<Row>): seq<FailedCheck> {
    if rows == [] then []
    else
      var last := rows[|rows| - 1];
      FailedChecks(tol, rows[..|rows| - 1]) +
      if Failing(tol, last) then [FailedCheck(last.name, EffectiveStatus(tol, last))] else []
  }

  method CollectFailedChecks(tol: Tolerance, rows: seq<Row>) returns (out: seq<FailedCheck>)
    ensures out == FailedChecks(tol, rows)
  {
    out := [];
    for i := 0 to |rows|
      invariant out == FailedChecks(tol, rows[..i])
    {
      assert rows[..i + 1][..i] == rows[..i];
      var status := EffectiveStatus(tol, rows[i]);
      if status == Failure || status == Cancelled { out := out + [FailedCheck(rows[i].name, status)]; }
    }
    assert rows[..|rows|] == rows;
  }

  /** A check is reported exactly when one of its rows fails and is not tolerated. */
  lemma {:induction false} FailedIff(tol: Tolerance, rows: seq<Row>, name: string, status: Status)
    ensures FailedCheck(name, status) in FailedChecks(tol, rows) <==>
      exists row :: row in rows && Failing(tol, row) && row.name == name && status == EffectiveStatus(tol, row)
  {
    if rows != [] {
      var front, last := rows[..|rows| - 1], rows[|rows| - 1];
      FailedIff(tol, front, name, status);
      assert rows == front + [last];
    }
  }

  predicate Names(out: seq<CheckSummary>, name: string) {
    exists i :: 0 <= i < |out| && out[i].name == name
  }

  /** The first row of every name. */
  function Summary(rows: seq<Row>): seq<CheckSummary> {
    if rows == [] then []
    else
      var out, last := Summary(rows[..|rows| - 1]), rows[|rows| - 1];
      if Names(out, last.name) then out else out + [CheckSummary(last.name, last.bucket)]
  }

  method Summarize(rows: seq<Row>) returns (out: seq<CheckSummary>)
    ensures out == Summary(rows)
  {
    out := [];
    var seen: set<string> := {};
    for i := 0 to |rows|
      invariant out == Summary(rows[..i])
      invariant forall name :: name in seen <==> Names(out, name)
    {
      assert rows[..i + 1][..i] == rows[..i];
      if rows[i].name !in seen {
        ghost var before := out;
        seen := seen + {rows[i].name};
        out := out + [CheckSummary(rows[i].name, rows[i].bucket)];
        NamesAppend(before, CheckSummary(rows[i].name, rows[i].bucket));
      }
    }
    assert rows[..|rows|] == rows;
  }

  lemma NamesAppend(out: seq<CheckSummary>, s: CheckSummary)
    ensures forall name :: Names(out + [s], name) <==> Names(out, name) || name == s.name
  {
    forall name ensures Names(out + [s], name) <==> Names(out, name) || name == s.name {
      assert (out + [s])[|out|] == s;
      if Names(out, name) {
        var i :| 0 <= i < |out| && out[i].name == name;
        assert (out + [s])[i].name == name;
      }
    }
  }

  predicate FirstNamed(rows: seq<Row>, i: int) {
    0 <= i < |rows| && forall k :: 0 <= k < i ==> rows[k].name != rows[i].name
  }

  /** `s` repeats the first row of its name. */
  ghost predicate FromFirst(rows: seq<Row>, s: CheckSummary) {
    exists i :: FirstNamed(rows, i) && s == CheckSummary(rows[i].name, rows[i].bucket)
  }

  /** One line per named check, saying what its first row said. */
  lemma {:induction false} SummaryOnePerName(rows: seq<Row>)
    ensures forall i, j :: 0 <= i < j < |Summary(rows)| ==> Summary(rows)[i].name != Summary(rows)[j].name
    ensures forall row :: row in rows ==> Names(Summary(rows), row.name)
    ensures forall s :: s in Summary(rows) ==> FromFirst(rows, s)
  {
    hide Names, FromFirst;
    if rows != [] {
      var n := |rows| - 1;
      var front, last := rows[..n], rows[n];
      var out := Summary(front);
      SummaryOnePerName(front);
      NamesAppend(out, CheckSummary(last.name, last.bucket));
      assert rows == front + [last];
      forall s | s in out ensures FromFirst(rows, s) { FirstStays(front, last, s); }
      if !Names(out, last.name) {
        LastFirst(front, last);
        forall i | 0 <= i < |out| ensures out[i].name != last.name { NamedAt(out, i); }
      }
    }
  }

  lemma NamedAt(out: seq<CheckSummary>, i: nat)
    requires i < |out|
    ensures Names(out, out[i].name)
  {}

  lemma FirstStays(rows: seq<Row>, row: Row, s: CheckSummary)
    requires FromFirst(rows, s)
    ensures FromFirst(rows + [row], s)
  {
    var i :| FirstNamed(rows, i) && s == CheckSummary(rows[i].name, rows[i].bucket);
    assert FirstNamed(rows + [row], i);
  }

  lemma LastFirst(rows: seq<Row>, row: Row)
    requires forall r :: r in rows ==> r.name != row.name
    ensures FromFirst(rows + [row], CheckSummary(row.name, row.bucket))
  {
    assert FirstNamed(rows + [row], |rows|);
  }

  // --------------------------------------------------------------------------- the history of reads

  const INITIAL_DELAY := 1_000
  const MAX_DELAY := 60_000
  const TIMEOUT := 7_200_000
  const START_WAIT := 60_000
  const EMPTY_GRACE := 60_000
  const MAX_CONSECUTIVE_FAILURES := 5

  /** One run of the command: its rows when they parse, its exit code and what else the streams held. */
  datatype Response = Response(rows: Option<seq<Row>>, exitCode: int, blankOutput: bool, saysNoChecks: bool)

  /** What surrounds the polls, each numbered from 0; `elapsed` is the time since the wait began. */
  datatype World = World(tol: Tolerance, read: nat -> Response, elapsed: nat -> int,
                         abortedBefore: nat -> bool, abortedAfter: nat -> bool)

  /** No rows when the pull request has no checks; nothing when the read failed. */
  function RowsAt(w: World, n: nat): Option<seq<Row>> {
    var r := w.read(n);
    if r.rows.Some? then r.rows
    else if r.exitCode != 0 && r.blankOutput && r.saysNoChecks then Some([])
    else None
  }

  predicate Bad(w: World, n: nat) { RowsAt(w, n) == None }

  predicate Empty(w: World, n: nat) { RowsAt(w, n) == Some([]) }

  /** The pause behind poll `n`. */
  function Delay(n: nat): (d: nat)
    ensures d <= MAX_DELAY
  {
    if n == 0 then INITIAL_DELAY else Min(2 * Delay(n - 1), MAX_DELAY)
  }

  function Min(a: nat, b: nat): nat { if a < b then a else b }

  /** Time slept between polls `m` and `n`. */
  function Slept(m: nat, n: nat): nat
    requires m <= n
  {
    if m == n then 0 else Slept(m, n - 1) + Delay(n - 1)
  }

  /** Reads that were empty without a break for the whole grace, up to and with `n`. */
  ghost predicate EmptyForGrace(w: World, n: nat) {
    exists m :: EmptySince(w, m, n) && Slept(m, n) >= EMPTY_GRACE
  }

  ghost predicate EmptySince(w: World, m: nat, n: nat) {
    m <= n && forall k: nat :: m <= k <= n ==> Empty(w, k)
  }

  ghost predicate LastReadsBad(w: World, n: nat, count: nat) {
    count <= n + 1 && forall k: nat :: n + 1 - count <= k <= n ==> Bad(w, k)
  }

  datatype Outcome =
    | Green(checks: seq<CheckSummary>)
    | Red(failed: seq<FailedCheck>, checks: seq<CheckSummary>)
    | NoVerdict
    | ReadError
    | TimedOut

  /** What poll `n` decides, if it is reached. */
  ghost function Verdict(w: World, n: nat): Option<Outcome> {
    if w.abortedBefore(n) || w.abortedAfter(n) then Some(NoVerdict)
    else if Bad(w, n) && LastReadsBad(w, n, MAX_CONSECUTIVE_FAILURES) then Some(ReadError)
    else if !Bad(w, n) && SomeFailing(w.tol, RowsAt(w, n).value) then
      Some(Red(FailedChecks(w.tol, RowsAt(w, n).value), Summary(RowsAt(w, n).value)))
    else if !Bad(w, n) && AllSettled(w.tol, RowsAt(w, n).value) then Some(Green(Summary(RowsAt(w, n).value)))
    else if Empty(w, n) && EmptyForGrace(w, n) then Some(Green([]))
    else if w.elapsed(n) >= TIMEOUT then Some(TimedOut)
    else None
  }

  // --------------------------------------------------------------------------------- the loop

  function EmptyWaited(w: World, n: nat): nat {
    if n == 0 || !Empty(w, n - 1) then 0 else EmptyWaited(w, n - 1) + Delay(n - 1)
  }

  function BadRun(w: World, n: nat): nat {
    if n == 0 || !Bad(w, n - 1) then 0 else BadRun(w, n - 1) + 1
  }

  lemma {:induction false} BadRunIs(w: World, n: nat, count: nat)
    ensures BadRun(w, n) >= count <==> count <= n && forall k: nat :: n - count <= k < n ==> Bad(w, k)
    decreases n
  {
    hide Bad;
    if n > 0 && count > 0 { BadRunIs(w, n - 1, count - 1); }
  }

  lemma {:induction false} EmptyWaitedIs(w: World, n: nat) returns (m: nat)
    ensures m <= n && EmptyWaited(w, n) == Slept(m, n)
    ensures forall k: nat :: m <= k < n ==> Empty(w, k)
    ensures m > 0 ==> !Empty(w, m - 1)
  {
    hide Empty, Delay;
    if n == 0 || !Empty(w, n - 1) {
      m := n;
    } else {
      m := EmptyWaitedIs(w, n - 1);
    }
  }

  lemma {:induction false} SleptLess(l: nat, m: nat, n: nat)
    requires l <= m <= n
    ensures Slept(m, n) <= Slept(l, n)
  {
    hide Delay;
    if m < n { SleptLess(l, m, n - 1); }
  }

  lemma GraceIff(w: World, n: nat)
    requires Empty(w, n)
    ensures EmptyWaited(w, n) >= EMPTY_GRACE <==> EmptyForGrace(w, n)
  {
    hide Empty, Slept, EmptyWaited;
    var m := EmptyWaitedIs(w, n);
    assert EmptySince(w, m, n);
    if EmptyForGrace(w, n) {
      var l :| EmptySince(w, l, n) && Slept(l, n) >= EMPTY_GRACE;
      assert l >= m;
      SleptLess(m, l, n);
    }
  }

  /** `last` is some poll at which the clock is past the timeout. */
  method PollChecks(w: World, ghost last: nat) returns (o: Outcome, n: nat)
    requires w.elapsed(last) >= TIMEOUT
    ensures n <= last && Verdict(w, n) == Some(o)
    ensures forall k: nat :: k < n ==> Verdict(w, k) == None
  {
    hide Summary, FailedChecks, SomeFailing, AllSettled, EmptyForGrace, LastReadsBad;
    n := 0;
    var delay, emptyWaited, consecutiveFailures := INITIAL_DELAY, 0, 0;
    while true
      invariant n <= last
      invariant forall k: nat :: k < n ==> Verdict(w, k) == None
      invariant delay == Delay(n) && emptyWaited == EmptyWaited(w, n) && consecutiveFailures == BadRun(w, n)
      decreases last - n
    {
      if w.abortedBefore(n) { return NoVerdict, n; }
      var rows := RowsAt(w, n);
      if w.abortedAfter(n) { return NoVerdict, n; }
      BadRunIsLast(w, n);
      if rows.Some? {
        consecutiveFailures := 0;
        var status := AggregateChecks(w.tol, rows.value);
        if status == Failure || status == Cancelled {
          var failed := CollectFailedChecks(w.tol, rows.value);
          var checks := Summarize(rows.value);
          return Red(failed, checks), n;
        }
        if status != StillPending {
          var checks := Summarize(rows.value);
          return Green(checks), n;
        }
        if rows.value == [] {
          GraceIff(w, n);
          if emptyWaited >= EMPTY_GRACE { return Green([]), n; }
        }
      } else {
        consecutiveFailures := consecutiveFailures + 1;
        if consecutiveFailures >= MAX_CONSECUTIVE_FAILURES { return ReadError, n; }
      }
      if w.elapsed(n) >= TIMEOUT { return TimedOut, n; }
      assert Verdict(w, n) == None;
      emptyWaited := if rows == Some([]) then emptyWaited + delay else 0;
      delay := Min(delay * 2, MAX_DELAY);
      n := n + 1;
    }
  }

  lemma BadRunIsLast(w: World, n: nat)
    ensures Bad(w, n) ==>
      (BadRun(w, n) + 1 >= MAX_CONSECUTIVE_FAILURES <==> LastReadsBad(w, n, MAX_CONSECUTIVE_FAILURES))
  {
    hide Bad;
    BadRunIs(w, n + 1, MAX_CONSECUTIVE_FAILURES);
  }

  // ------------------------------------------------------------------------------- what a verdict means

  /**
   * Green only when one read showed every check passed, skipped or tolerated, or reads were empty for
   * the whole grace; red always names a check that failed and is not tolerated; an error only behind
   * five bad reads in a row.
   */
  lemma VerdictJustified(w: World, n: nat, o: Outcome)
    requires Verdict(w, n) == Some(o)
    ensures o.Green? ==> (RowsAt(w, n).Some? && AllSettled(w.tol, RowsAt(w, n).value)) || EmptyForGrace(w, n)
    ensures o.Red? ==> o.failed != [] && RowsAt(w, n).Some? && forall c :: c in o.failed ==>
      exists row :: row in RowsAt(w, n).value && Failing(w.tol, row) && row.name == c.name
    ensures o.ReadError? ==> n >= 4 && Bad(w, n) && Bad(w, n - 1) && Bad(w, n - 2) && Bad(w, n - 3) && Bad(w, n - 4)
    ensures o.NoVerdict? <==> w.abortedBefore(n) || w.abortedAfter(n)
    ensures o.TimedOut? ==> w.elapsed(n) >= TIMEOUT
  {
    hide FailedChecks, Summary, AllSettled, EmptyForGrace;
    if o.Red? {
      assert RowsAt(w, n).Some?;
      var rows := RowsAt(w, n).value;
      forall c | c in o.failed
        ensures exists row :: row in rows && Failing(w.tol, row) && row.name == c.name
      {
        FailedIff(w.tol, rows, c.name, c.status);
      }
      var row :| row in rows && Failing(w.tol, row);
      FailedIff(w.tol, rows, row.name, EffectiveStatus(w.tol, row));
    }
  }

  // -------------------------------------------------------------------------------- the number of polls

  /** The clock moves at least as far as each sleep. */
  ghost predicate ClockKeepsUp(w: World) {
    forall n: nat :: w.elapsed(n) >= START_WAIT + Slept(0, n)
  }

  lemma {:induction false} SleptFrom6(n: nat)
    requires n >= 6
    ensures Delay(n) == MAX_DELAY && Slept(0, n) == 63_000 + 60_000 * (n - 6)
  {
    if n == 6 {
      assert Delay(1) == 2_000 && Delay(2) == 4_000;
      assert Delay(3) == 8_000 && Delay(4) == 16_000;
      assert Delay(5) == 32_000 && Delay(6) == 60_000;
      assert Slept(0, 1) == 1_000 && Slept(0, 2) == 3_000;
      assert Slept(0, 3) == 7_000 && Slept(0, 4) == 15_000;
      assert Slept(0, 5) == 31_000;
    } else {
      SleptFrom6(n - 1);
    }
  }

  /** Whatever is read, there are at most 125 polls. */
  lemma AtMost125Polls(w: World)
    requires ClockKeepsUp(w)
    ensures w.elapsed(124) >= TIMEOUT && exists n: nat :: n <= 124 && Verdict(w, n).Some?
  {
    hide Slept;
    SleptFrom6(124);
    assert Verdict(w, 124).Some?;
  }

  /** The bound is met by checks that stay pending under an exact clock. */
  lemma BoundIsMet(w: World, row: Row)
    requires forall n: nat :: w.read(n).rows == Some([row]) && w.elapsed(n) == START_WAIT + Slept(0, n)
    requires row.bucket.Pending? && forall n: nat :: !w.abortedBefore(n) && !w.abortedAfter(n)
    ensures Verdict(w, 124) == Some(TimedOut) && forall n: nat :: n < 124 ==> Verdict(w, n) == None
  {
    hide Slept;
    forall n: nat ensures Verdict(w, n) == if w.elapsed(n) >= TIMEOUT then Some(TimedOut) else None {
      assert RowsAt(w, n) == Some([row]);
      assert row in [row] && !Settled(w.tol, row);
      assert !SomeFailing(w.tol, [row]);
    }
    SleptFrom6(123);
    SleptFrom6(124);
    forall n: nat | n < 124 ensures w.elapsed(n) < TIMEOUT {
      SleptLess0(n, 123);
    }
  }

  lemma {:induction false} SleptLess0(n: nat, m: nat)
    requires n <= m
    ensures Slept(0, n) <= Slept(0, m)
  {
    hide Delay;
    if n < m { SleptLess0(n, m - 1); }
  }

  // ------------------------------------------------------------- each verdict, said without the others

  predicate SaysNone(r: Response) {
    r.rows == None && r.exitCode != 0 && r.blankOutput && r.saysNoChecks
  }

  predicate IsFailed(row: Row, tol: Tolerance) {
    (row.bucket == Fail || row.bucket == Cancel) && !tol(row)
  }

  predicate IsDone(row: Row, tol: Tolerance) {
    row.bucket == Pass || row.bucket == Skipping || ((row.bucket == Fail || row.bucket == Cancel) && tol(row))
  }

  /** A read without any row: an empty list, or the words that say there is no check. */
  predicate NoRows(r: Response) {
    r.rows == Some([]) || SaysNone(r)
  }

  predicate BadRead(r: Response) {
    r.rows == None && !SaysNone(r)
  }

  /** How long the pauses between two polls are together, against the grace for a missing check. */
  lemma GraceSpan(m: nat, n: nat)
    requires m <= n
    ensures Slept(m, n) >= 60_000 <==> m < n && n >= if m <= 2 then 6 else 7
  {
    hide Slept, Delay;
    FirstPauses();
    if n > 7 {
      LongPause(n - 1);
      SleptStep(m, n);
    } else {
      SleptStep(m, n);
      SleptStep(m, Less(m, n, 1));
      SleptStep(m, Less(m, n, 2));
      SleptStep(m, Less(m, n, 3));
      SleptStep(m, Less(m, n, 4));
      SleptStep(m, Less(m, n, 5));
      SleptStep(m, Less(m, n, 6));
      SleptStep(m, Less(m, n, 7));
    }
  }

  function Less(m: nat, n: nat, k: nat): (l: nat)
    requires m <= n
    ensures m <= l <= n
  {
    if m + k <= n then n - k else m
  }

  lemma SleptStep(m: nat, n: nat)
    requires m <= n
    ensures Slept(m, n) == if m == n then 0 else Slept(m, n - 1) + Delay(n - 1)
  {}

  lemma FirstPauses()
    ensures Delay(0) == 1_000 && Delay(1) == 2_000 && Delay(2) == 4_000 && Delay(3) == 8_000
    ensures Delay(4) == 16_000 && Delay(5) == 32_000 && Delay(6) == 60_000
  {}

  lemma {:induction false} LongPause(n: nat)
    requires n >= 6
    ensures Delay(n) == 60_000
  {
    FirstPauses();
    if n > 6 { LongPause(n - 1); }
  }

  /** Missing checks are given up on at poll 6 behind four empty reads, and later behind a single one. */
  lemma GraceEndsIff(w: World, n: nat)
    ensures EmptyForGrace(w, n) <==>
      && NoRows(w.read(n))
      && ((n >= 7 && NoRows(w.read(n - 1)))
          || (n == 6 && NoRows(w.read(5)) && NoRows(w.read(4)) && NoRows(w.read(3)) && NoRows(w.read(2))))
  {
    hide Slept;
    forall k: nat ensures Empty(w, k) <==> NoRows(w.read(k)) {}
    hide Empty, NoRows;
    if EmptyForGrace(w, n) {
      var m :| EmptySince(w, m, n) && Slept(m, n) >= EMPTY_GRACE;
      GraceSpan(m, n);
    }
    if n >= 7 {
      GraceSpan(n - 1, n);
      assert Empty(w, n) && Empty(w, n - 1) ==> EmptySince(w, n - 1, n);
    }
    if n == 6 {
      GraceSpan(2, n);
      assert Empty(w, 2) && Empty(w, 3) && Empty(w, 4) && Empty(w, 5) && Empty(w, 6) ==> EmptySince(w, 2, 6);
    }
  }

  /** The run is given up, or five reads in a row were bad. */
  predicate StopsEarly(w: World, n: nat) {
    w.abortedBefore(n) || w.abortedAfter(n) || FiveBad(w, n)
  }

  predicate FiveBad(w: World, n: nat) {
    && n >= 4 && BadRead(w.read(n)) && BadRead(w.read(n - 1)) && BadRead(w.read(n - 2))
    && BadRead(w.read(n - 3)) && BadRead(w.read(n - 4))
  }

  predicate ReadsRed(w: World, n: nat) {
    w.read(n).rows.Some? && exists row :: row in w.read(n).rows.value && IsFailed(row, w.tol)
  }

  predicate ReadsGreen(w: World, n: nat) {
    && w.read(n).rows.Some? && w.read(n).rows.value != []
    && forall row :: row in w.read(n).rows.value ==> IsDone(row, w.tol)
  }

  /** When a poll that is reached decides what. */
  lemma VerdictIff(w: World, n: nat)
    ensures Verdict(w, n) == Some(NoVerdict) <==> w.abortedBefore(n) || w.abortedAfter(n)
    ensures Verdict(w, n) == Some(ReadError) <==> !w.abortedBefore(n) && !w.abortedAfter(n) && FiveBad(w, n)
    ensures (Verdict(w, n).Some? && Verdict(w, n).value.Red?) <==> !StopsEarly(w, n) && ReadsRed(w, n)
    ensures (Verdict(w, n).Some? && Verdict(w, n).value.Green?) <==>
      !StopsEarly(w, n) && (ReadsGreen(w, n) || EmptyForGrace(w, n))
    ensures Verdict(w, n) == Some(TimedOut) <==>
      && !StopsEarly(w, n) && !ReadsRed(w, n) && !ReadsGreen(w, n) && !EmptyForGrace(w, n)
      && w.elapsed(n) >= 7_200_000
  {
    hide FailedChecks, Summary, EmptyForGrace;
    forall k: nat ensures Bad(w, k) <==> BadRead(w.read(k)) {}
    forall row ensures Failing(w.tol, row) <==> IsFailed(row, w.tol) {}
    forall row ensures Settled(w.tol, row) <==> IsDone(row, w.tol) {}
    assert Empty(w, n) <==> NoRows(w.read(n));
    GraceEndsIff(w, n);
    hide Bad, Failing, Settled, IsFailed, IsDone;
    assert LastReadsBad(w, n, 5) <==> FiveBad(w, n);
  }

  function StatusOf(b: Bucket): Status { if b == Fail then Failure else Cancelled }

  /** A red verdict lists every failed row that is not tolerated, in the order read. */
  lemma {:induction false} FailedAre(tol: Tolerance, rows: seq<Row>) returns (at: seq<nat>)
    ensures Chosen(at, |rows|, (i: nat) => i < |rows| && IsFailed(rows[i], tol))
    ensures ListsFailed(rows, FailedChecks(tol, rows), at)
    decreases |rows|
  {
    if rows == [] {
      at := [];
    } else {
      var n := |rows| - 1;
      var before := rows[..n];
      var front := FailedAre(tol, before);
      at := front + if IsFailed(rows[n], tol) then [n] else [];
      FailedNext(tol, rows, front);
      hide IsFailed, Chosen;
      LastChosen(front, n, (i: nat) => i < |before| && IsFailed(before[i], tol),
                 (i: nat) => i < |rows| && IsFailed(rows[i], tol));
    }
  }

  predicate ListsFailed(rows: seq<Row>, out: seq<FailedCheck>, at: seq<nat>) {
    && |out| == |at|
    && forall k :: 0 <= k < |at| ==>
      at[k] < |rows| && out[k] == FailedCheck(rows[at[k]].name, StatusOf(rows[at[k]].bucket))
  }

  lemma FailedNext(tol: Tolerance, rows: seq<Row>, front: seq<nat>)
    requires rows != [] && ListsFailed(rows[..|rows| - 1], FailedChecks(tol, rows[..|rows| - 1]), front)
    ensures var n := |rows| - 1;
      ListsFailed(rows, FailedChecks(tol, rows), front + if IsFailed(rows[n], tol) then [n] else [])
  {
    var n := |rows| - 1;
    var out := FailedChecks(tol, rows[..n]);
    OneFailed(tol, rows[n]);
    assert FailedChecks(tol, rows) ==
      out + if IsFailed(rows[n], tol) then [FailedCheck(rows[n].name, StatusOf(rows[n].bucket))] else [];
    hide FailedChecks, IsFailed, StatusOf;
    ListsLonger(rows, out, front);
  }

  lemma ListsLonger(rows: seq<Row>, out: seq<FailedCheck>, front: seq<nat>)
    requires rows != [] && ListsFailed(rows[..|rows| - 1], out, front)
    ensures var n := |rows| - 1;
      && ListsFailed(rows, out + [FailedCheck(rows[n].name, StatusOf(rows[n].bucket))], front + [n])
      && ListsFailed(rows, out + [], front + [])
  {
    hide StatusOf;
    assert out + [] == out && front + [] == front;
  }

  lemma OneFailed(tol: Tolerance, row: Row)
    ensures Failing(tol, row) <==> IsFailed(row, tol)
    ensures IsFailed(row, tol) ==> EffectiveStatus(tol, row) == StatusOf(row.bucket)
  {}

  lemma LastChosen(front: seq<nat>, n: nat, chosen: nat -> bool, chosen': nat -> bool)
    requires Chosen(front, n, chosen) && forall i: nat :: i < n ==> chosen(i) == chosen'(i)
    ensures Chosen(front + (if chosen'(n) then [n] else []), n + 1, chosen')
  {
    assert Chosen(front, n, chosen');
    ChosenNext(front, n, chosen');
  }

  /** A summary lists the first row of each name, in the order read. */
  lemma {:induction false} SummaryIs(rows: seq<Row>) returns (at: seq<nat>)
    ensures Chosen(at, |rows|, (i: nat) => FirstNamed(rows, i))
    ensures var out := Summary(rows);
      |out| == |at| && forall k :: 0 <= k < |at| ==>
        at[k] < |rows| && out[k] == CheckSummary(rows[at[k]].name, rows[at[k]].bucket)
    decreases |rows|
  {
    hide Names;
    if rows == [] {
      at := [];
    } else {
      var n := |rows| - 1;
      var front := SummaryIs(rows[..n]);
      NamedOrFirst(rows);
      at := front + if FirstNamed(rows, n) then [n] else [];
      LastChosen(front, n, (i: nat) => FirstNamed(rows[..n], i), (i: nat) => FirstNamed(rows, i));
    }
  }

  lemma NamedOrFirst(rows: seq<Row>)
    requires rows != []
    ensures Names(Summary(rows[..|rows| - 1]), rows[|rows| - 1].name) <==> !FirstNamed(rows, |rows| - 1)
  {
    var n := |rows| - 1;
    var front, name := rows[..n], rows[n].name;
    SummaryOnePerName(front);
    hide Summary;
    if Names(Summary(front), name) {
      var i :| 0 <= i < |Summary(front)| && Summary(front)[i].name == name;
      assert FromFirst(front, Summary(front)[i]);
    }
    if !FirstNamed(rows, n) {
      var k :| 0 <= k < n && rows[k].name == name;
      assert front[k] in front;
    }
  }
}
