/**
 * Streamed generations under a stall watchdog, inside a bounded retry kernel. The provider is an
 * adversary: what every opened stream does, and when the caller cancels, is an arbitrary input.
 */
module StreamRetry {
  import opened Options

  // ------------------------------------------------------------------------------- the provider

  datatype Err =
    | StepTimeout
    | StreamStall
    | AbortError
    | Provider(status: Option<nat>, transientMessage: bool)

  const RETRYABLE_STATUS: set<nat> := {408, 409, 429, 500, 502, 503, 504, 529}

  predicate IsRetryable(e: Err) {
    e.Provider? && ((e.status.Some? && e.status.value in RETRYABLE_STATUS) || e.transientMessage)
  }

  datatype Part = TextDelta | ToolCall(submit: bool) | FinishPart | ErrorPart(e: Err) | OtherPart

  /** What one awaited read brings: a part, silence past the deadline, a throw, or the end. */
  datatype Event = Arrives(part: Part) | Stalls | Breaks(e: Err) | Ends

  /** One opened stream: its events in order (the end follows the last) and whether its result settles. */
  datatype Stream = OpenFails(e: Err) | Opens(events: seq<Event>, unsettled: Option<Err>)

  /** The streams in the order they are opened. */
  type Provider = nat -> Stream

  // -------------------------------------------------------------------------------- the watchdog

  datatype Outcome = Drained | StalledActive | StalledGrace | Threw(e: Err)

  predicate IsFinish(p: Part) { p.FinishPart? || (p.ToolCall? && p.submit) }

  function Consume(events: seq<Event>, finished: bool): Outcome {
    if events == [] then Drained
    else
      match events[0]
      case Stalls => if finished then StalledGrace else StalledActive
      case Breaks(e) => Threw(e)
      case Ends => Drained
      case Arrives(ErrorPart(e)) => Threw(e)
      case Arrives(p) => Consume(events[1..], finished || IsFinish(p))
  }

  /** The stream goes on behind this event. */
  predicate GoesOn(e: Event) { e.Arrives? && !e.part.ErrorPart? }

  /** The model is done: it says so, or calls the submit tool. */
  predicate Finishes(e: Event) { e.Arrives? && (e.part == FinishPart || e.part == ToolCall(true)) }

  /** Read up to the first event that ends it: the regime depends on whether a finish came before. */
  lemma {:induction false} ConsumeExactly(events: seq<Event>, finished: bool) returns (t: nat)
    ensures t <= |events| && (forall k :: 0 <= k < t ==> GoesOn(events[k]))
    ensures t < |events| ==> !GoesOn(events[t])
    ensures Consume(events, finished) ==
      if t == |events| || events[t].Ends? then Drained
      else if events[t].Breaks? then Threw(events[t].e)
      else if events[t].Arrives? then Threw(events[t].part.e)
      else if finished || exists k :: 0 <= k < t && Finishes(events[k]) then StalledGrace
      else StalledActive
    decreases |events|
  {
    if events == [] || !GoesOn(events[0]) {
      t := 0;
    } else {
      var f := finished || IsFinish(events[0].part);
      var t' := ConsumeExactly(events[1..], f);
      t := t' + 1;
      if k :| 0 <= k < t' && Finishes(events[1..][k]) {
        assert Finishes(events[k + 1]);
      }
      if k :| 0 <= k < t && Finishes(events[k]) && k > 0 {
        assert Finishes(events[1..][k - 1]);
      }
    }
  }

  method ConsumeStreamWithWatchdog(events: seq<Event>) returns (o: Outcome)
    ensures o == Consume(events, false)
  {
    var finished := false;
    for i := 0 to |events|
      invariant Consume(events[i..], finished) == Consume(events, false)
    {
      assert events[i..][0] == events[i] && events[i..][1..] == events[i + 1..];
      match events[i] {
        case Stalls => return if finished then StalledGrace else StalledActive;
        case Breaks(e) => return Threw(e);
        case Ends => return Drained;
        case Arrives(p) =>
          if p.ErrorPart? { return Threw(p.e); }
          if IsFinish(p) { finished := true; }
      }
    }
    return Drained;
  }

  // -------------------------------------------------------------------- one attempt of the kernel

  const MAX_STREAM_STALL_RETRIES := 1

  datatype Result = Answer(stream: nat) | Error(e: Err)

  /** One opened stream in the log: the attempt it belongs to and how it ended. */
  datatype Entry = Entry(attempt: nat, outcome: Outcome, unsettled: Option<Err>)

  function OutcomeOf(s: Stream): Outcome {
    match s
    case OpenFails(e) => Threw(e)
    case Opens(events, _) => Consume(events, false)
  }

  function Unsettled(s: Stream): Option<Err> { if s.Opens? then s.unsettled else None }

  /** Open stream `n` and go on as its outcome says. */
  function Attempt(p: Provider, n: nat, attempt: nat, stallRetries: nat): (Result, seq<Entry>)
    requires stallRetries <= MAX_STREAM_STALL_RETRIES
    decreases MAX_STREAM_STALL_RETRIES - stallRetries
  {
    var entry := Entry(attempt, OutcomeOf(p(n)), Unsettled(p(n)));
    match OutcomeOf(p(n))
    case Threw(e) => (Error(e), [entry])
    case Drained => (if Unsettled(p(n)).Some? then Error(Unsettled(p(n)).value) else Answer(n), [entry])
    case StalledGrace => (Error(StreamStall), [entry])
    case StalledActive =>
      if stallRetries >= MAX_STREAM_STALL_RETRIES then (Error(StreamStall), [entry])
      else
        var (r, log) := Attempt(p, n + 1, attempt, stallRetries + 1);
        (r, [entry] + log)
  }

  method Streamed(p: Provider, n: nat, attempt: nat) returns (r: Result, log: seq<Entry>)
    ensures (r, log) == Attempt(p, n, attempt, 0)
  {
    var stallRetries := 0;
    log := [];
    while true
      invariant stallRetries == |log| <= MAX_STREAM_STALL_RETRIES
      invariant var rest := Attempt(p, n + |log|, attempt, stallRetries);
        var whole := Attempt(p, n, attempt, 0);
        rest.0 == whole.0 && log + rest.1 == whole.1
      decreases MAX_STREAM_STALL_RETRIES - stallRetries
    {
      var stream := p(n + |log|);
      var outcome;
      if stream.OpenFails? {
        outcome := Threw(stream.e);
      } else {
        outcome := ConsumeStreamWithWatchdog(stream.events);
      }
      assert outcome == OutcomeOf(stream);
      hide Consume;
      var entry := Entry(attempt, outcome, Unsettled(stream));
      var which := n + |log|;
      log := log + [entry];
      if outcome.Threw? { return Error(outcome.e), log; }
      if outcome.Drained? {
        return if Unsettled(stream).Some? then Error(Unsettled(stream).value) else Answer(which), log;
      }
      if outcome.StalledGrace? || stallRetries >= MAX_STREAM_STALL_RETRIES { return Error(StreamStall), log; }
      stallRetries := stallRetries + 1;
    }
  }

  // -------------------------------------------------------------------------------- the kernel

  /** Retries allowed, whether a deadline is armed, and whether the caller has cancelled when an attempt fails. */
  datatype Kernel = Kernel(maxRetries: nat, timeout: bool, cancelled: nat -> bool)

  /** An abort under a deadline that the caller did not ask for is the deadline. */
  function Translate(k: Kernel, attempt: nat, e: Err): Err {
    if k.timeout && e.AbortError? && !k.cancelled(attempt) then StepTimeout else e
  }

  function CallFrom(p: Provider, k: Kernel, n: nat, attempt: nat): (Result, seq<Entry>)
    requires attempt <= k.maxRetries
    decreases k.maxRetries - attempt
  {
    var (r, log) := Attempt(p, n, attempt, 0);
    if r.Answer? then (r, log)
    else
      var e := Translate(k, attempt, r.e);
      if attempt >= k.maxRetries || k.cancelled(attempt) || !IsRetryable(e) then (Error(e), log)
      else
        var (r', log') := CallFrom(p, k, n + |log|, attempt + 1);
        (r', log + log')
  }

  method CallWithRetry(p: Provider, k: Kernel) returns (r: Result, log: seq<Entry>)
    ensures (r, log) == CallFrom(p, k, 0, 0)
  {
    hide Attempt, IsRetryable, Translate;
    var attempt := 0;
    log := [];
    while true
      invariant attempt <= k.maxRetries
      invariant var rest := CallFrom(p, k, |log|, attempt);
        var whole := CallFrom(p, k, 0, 0);
        rest.0 == whole.0 && log + rest.1 == whole.1
      decreases k.maxRetries - attempt
    {
      var outcome, entries := Streamed(p, |log|, attempt);
      log := log + entries;
      if outcome.Answer? { return outcome, log; }
      var e := Translate(k, attempt, outcome.e);
      if attempt >= k.maxRetries || k.cancelled(attempt) || !IsRetryable(e) { return Error(e), log; }
      attempt := attempt + 1;
    }
  }

  // ------------------------------------------------------------------------------ the guarantees

  /**
   * A stall after the submit call ends everything; a stall before it is followed in its attempt by at
   * most one stream.
   */
  ghost predicate Disciplined(r: Result, log: seq<Entry>, k: Kernel) {
    && log != []
    && (forall i :: 0 <= i < |log| - 1 ==> !log[i].outcome.StalledGrace?)
    && (forall i :: 0 <= i < |log| - 1 && log[i].outcome.StalledActive? ==> log[i + 1].attempt == log[i].attempt)
    && (forall i :: 0 <= i < |log| - 1 && !log[i].outcome.StalledActive? ==>
         && log[i + 1].attempt == log[i].attempt + 1
         && !k.cancelled(log[i].attempt)
         && IsRetryable(Translate(k, log[i].attempt, if log[i].outcome.Threw? then log[i].outcome.e else
              if log[i].unsettled.Some? then log[i].unsettled.value else StreamStall)))
    && (forall i :: 0 <= i < |log| - 2 && log[i].outcome.StalledActive? ==> !log[i + 1].outcome.StalledActive?)
    && (log[|log| - 1].outcome.StalledActive? || log[|log| - 1].outcome.StalledGrace? ==> r == Error(StreamStall))
    && (r.Answer? <==> log[|log| - 1].outcome.Drained? && log[|log| - 1].unsettled == None)
  }

  lemma AttemptShape(p: Provider, n: nat, attempt: nat)
    ensures var (r, log) := Attempt(p, n, attempt, 0);
      && 1 <= |log| <= 2
      && (forall i :: 0 <= i < |log| ==> log[i].attempt == attempt)
      && (|log| == 2 ==> log[0].outcome.StalledActive?)
      && (|log| == 1 ==> !log[0].outcome.StalledActive?)
      && (r.Answer? <==> log[|log| - 1].outcome.Drained? && log[|log| - 1].unsettled == None)
      && (r == Answer(n + |log| - 1) || r == Error(
            if log[|log| - 1].outcome.Threw? then log[|log| - 1].outcome.e
            else if log[|log| - 1].outcome.Drained? && log[|log| - 1].unsettled.Some? then
              log[|log| - 1].unsettled.value
            else StreamStall))
      && (r.Answer? ==> r == Answer(n + |log| - 1))
  {
    hide Consume;
    assert Attempt(p, n + 1, attempt, 1).1 == [Entry(attempt, OutcomeOf(p(n + 1)), Unsettled(p(n + 1)))];
  }

  /** At most two streams an attempt, and the log keeps the rules, from any attempt on. */
  lemma {:induction false} CallDisciplined(p: Provider, k: Kernel, n: nat, attempt: nat)
    requires attempt <= k.maxRetries
    ensures var (r, log) := CallFrom(p, k, n, attempt);
      && Disciplined(r, log, k) && log[0].attempt == attempt
      && |log| <= 2 * (k.maxRetries - attempt + 1)
      && (r.Answer? ==> r == Answer(n + |log| - 1))
    decreases k.maxRetries - attempt
  {
    hide Attempt, IsRetryable, Disciplined, Translate;
    AttemptShape(p, n, attempt);
    StallsEnd(k, attempt);
    var (r, log) := Attempt(p, n, attempt, 0);
    if r.Error? && attempt < k.maxRetries && !k.cancelled(attempt) && IsRetryable(Translate(k, attempt, r.e)) {
      CallDisciplined(p, k, n + |log|, attempt + 1);
      var (r', rest) := CallFrom(p, k, n + |log|, attempt + 1);
      NotEmpty(r', rest, k);
      DisciplinedConcat(log, r', rest, k, attempt, r.e);
    } else {
      LastAttempt(p, n, attempt, k);
    }
  }

  lemma NotEmpty(r: Result, log: seq<Entry>, k: Kernel)
    requires Disciplined(r, log, k)
    ensures log != []
  {}

  lemma LastAttempt(p: Provider, n: nat, attempt: nat, k: Kernel)
    ensures var (r, log) := Attempt(p, n, attempt, 0);
      Disciplined(if r.Answer? then r else Error(Translate(k, attempt, r.e)), log, k)
  {
    hide Attempt, IsRetryable;
    AttemptShape(p, n, attempt);
  }

  lemma StallsEnd(k: Kernel, attempt: nat)
    ensures !IsRetryable(Translate(k, attempt, StreamStall)) && Translate(k, attempt, StreamStall) == StreamStall
  {}

  lemma DisciplinedConcat(log: seq<Entry>, r: Result, rest: seq<Entry>, k: Kernel, attempt: nat, e: Err)
    requires 1 <= |log| <= 2 && (forall i :: 0 <= i < |log| ==> log[i].attempt == attempt)
    requires |log| == 2 ==> log[0].outcome.StalledActive?
    requires e != StreamStall || log[|log| - 1].outcome.Threw? || log[|log| - 1].unsettled.Some?
    requires var last := log[|log| - 1];
      e == (if last.outcome.Threw? then last.outcome.e
            else if last.unsettled.Some? then last.unsettled.value else StreamStall)
    requires !log[|log| - 1].outcome.StalledActive? && !log[|log| - 1].outcome.StalledGrace?
    requires Disciplined(r, rest, k) && rest[0].attempt == attempt + 1
    requires !k.cancelled(attempt) && IsRetryable(Translate(k, attempt, e))
    ensures Disciplined(r, log + rest, k)
  {
    hide IsRetryable;
  }

  /**
   * Whatever the streams do: at most twice as many streams as attempts, a stall after the submit call
   * is the last thing that happens, and a stall before it is re-run at most once in its attempt.
   */
  lemma GenerationDisciplined(p: Provider, k: Kernel)
    ensures var (r, log) := CallFrom(p, k, 0, 0);
      && |log| <= 2 * (k.maxRetries + 1)
      && Disciplined(r, log, k)
      && (r.Answer? ==> r == Answer(|log| - 1))
  {
    CallDisciplined(p, k, 0, 0);
  }

  /** The bound is met: a provider that stalls once and then fails transiently makes the kernel use it up. */
  lemma {:induction false} BoundIsMet(p: Provider, k: Kernel, n: nat, attempt: nat)
    requires attempt <= k.maxRetries && n % 2 == 0
    requires forall i: nat :: OutcomeOf(p(i)) == if i % 2 == 0 then StalledActive else Threw(Provider(Some(429), false))
    requires forall i: nat :: !k.cancelled(i)
    ensures |CallFrom(p, k, n, attempt).1| == 2 * (k.maxRetries - attempt + 1)
    decreases k.maxRetries - attempt
  {
    hide Consume, OutcomeOf;
    assert OutcomeOf(p(n)) == StalledActive && OutcomeOf(p(n + 1)) == Threw(Provider(Some(429), false));
    assert Attempt(p, n + 1, attempt, 1) ==
      (Error(Provider(Some(429), false)), [Entry(attempt, OutcomeOf(p(n + 1)), Unsettled(p(n + 1)))]);
    assert |Attempt(p, n, attempt, 0).1| == 2 && Attempt(p, n, attempt, 0).0 == Error(Provider(Some(429), false));
    hide Attempt;
    if attempt < k.maxRetries { BoundIsMet(p, k, n + 2, attempt + 1); }
  }

  // -------------------------------------------------------------------- when exactly a call goes on

  /** The error a stream leaves behind, as the retry kernel sees it. */
  function ErrorOf(last: Entry, k: Kernel): Err {
    var e := match last.outcome
      case Threw(e) => e
      case Drained => if last.unsettled.Some? then last.unsettled.value else StreamStall
      case _ => StreamStall;
    if e == AbortError && k.timeout && !k.cancelled(last.attempt) then StepTimeout else e
  }

  predicate Transient(e: Err) {
    && e.Provider?
    && (e.transientMessage
        || (e.status.Some? && (e.status.value in {408, 409, 429, 529} || e.status.value in {500, 502, 503, 504})))
  }

  /** Nothing more is tried: it was the last attempt, the caller has cancelled, or trying again can not help. */
  predicate GivesUp(last: Entry, k: Kernel) {
    last.attempt == k.maxRetries || k.cancelled(last.attempt) || !Transient(ErrorOf(last, k))
  }

  /** The entries are those of the streams from `n` on, in order. */
  predicate LogsStreams(p: Provider, n: nat, log: seq<Entry>) {
    forall i :: 0 <= i < |log| ==> log[i].outcome == OutcomeOf(p(n + i)) && log[i].unsettled == Unsettled(p(n + i))
  }

  lemma AttemptLogs(p: Provider, n: nat, attempt: nat)
    ensures LogsStreams(p, n, Attempt(p, n, attempt, 0).1)
  {
    hide Consume, OutcomeOf;
    assert Attempt(p, n + 1, attempt, 1).1 == [Entry(attempt, OutcomeOf(p(n + 1)), Unsettled(p(n + 1)))];
  }

  lemma TransientIff(e: Err)
    ensures IsRetryable(e) <==> Transient(e)
  {}

  /** What a log of a call and its result show. */
  ghost predicate StopsRightly(p: Provider, k: Kernel, n: nat, attempt: nat, r: Result, log: seq<Entry>) {
    && log != [] && log[0].attempt == attempt && LogsStreams(p, n, log)
    && (r.Error? ==> r.e == ErrorOf(log[|log| - 1], k) && GivesUp(log[|log| - 1], k))
    && forall i :: 0 <= i < |log| ==> Retried(log, i)
  }

  /** A stall before the submit call is the second in its attempt or is given one more stream. */
  predicate Retried(log: seq<Entry>, i: nat)
    requires i < |log|
  {
    log[i].outcome.StalledActive? ==>
      || (i > 0 && log[i - 1].attempt == log[i].attempt)
      || (i + 1 < |log| && log[i + 1].attempt == log[i].attempt)
  }

  lemma StopsLater(
      p: Provider, k: Kernel, n: nat, attempt: nat, log: seq<Entry>, r: Result, rest: seq<Entry>)
    requires 1 <= |log| <= 2 && (forall i :: 0 <= i < |log| ==> log[i].attempt == attempt) && LogsStreams(p, n, log)
    requires |log| == 1 ==> !log[0].outcome.StalledActive?
    requires StopsRightly(p, k, n + |log|, attempt + 1, r, rest)
    ensures StopsRightly(p, k, n, attempt, r, log + rest)
  {
    hide ErrorOf, GivesUp, OutcomeOf, Unsettled;
    var all := log + rest;
    forall i | 0 <= i < |all|
      ensures all[i].outcome == OutcomeOf(p(n + i)) && all[i].unsettled == Unsettled(p(n + i)) && Retried(all, i)
    {
      if i >= |log| {
        assert all[i] == rest[i - |log|] && Retried(rest, i - |log|);
        assert p(n + |log| + (i - |log|)) == p(n + i);
      }
    }
  }

  /**
   * A call stops exactly behind a stream that answers or whose error ends it, and reports that error; a
   * stall before the submit call is given one more stream, and every other stream opens a new attempt.
   */
  lemma {:induction false} CallStopsIff(p: Provider, k: Kernel, n: nat, attempt: nat)
    requires attempt <= k.maxRetries
    ensures var (r, log) := CallFrom(p, k, n, attempt); StopsRightly(p, k, n, attempt, r, log)
    decreases k.maxRetries - attempt
  {
    hide Attempt, IsRetryable, Transient, Translate, StopsRightly, ErrorOf, LogsStreams;
    AttemptShape(p, n, attempt);
    AttemptLogs(p, n, attempt);
    var (r, log) := Attempt(p, n, attempt, 0);
    if r.Answer? {
      StopsHere(p, k, n, attempt, r, log);
    } else {
      TranslatesTo(k, attempt, r.e, log[|log| - 1]);
      TransientIff(Translate(k, attempt, r.e));
      if attempt < k.maxRetries && !k.cancelled(attempt) && IsRetryable(Translate(k, attempt, r.e)) {
        CallStopsIff(p, k, n + |log|, attempt + 1);
        var (r', rest) := CallFrom(p, k, n + |log|, attempt + 1);
        StopsLater(p, k, n, attempt, log, r', rest);
      } else {
        StopsHere(p, k, n, attempt, Error(Translate(k, attempt, r.e)), log);
      }
    }
  }

  lemma StopsHere(p: Provider, k: Kernel, n: nat, attempt: nat, r: Result, log: seq<Entry>)
    requires 1 <= |log| <= 2 && (forall i :: 0 <= i < |log| ==> log[i].attempt == attempt) && LogsStreams(p, n, log)
    requires |log| == 1 ==> !log[0].outcome.StalledActive?
    requires r.Error? ==> r.e == ErrorOf(log[|log| - 1], k) && GivesUp(log[|log| - 1], k)
    ensures StopsRightly(p, k, n, attempt, r, log)
  {
    hide ErrorOf, GivesUp, LogsStreams;
  }

  lemma TranslatesTo(k: Kernel, attempt: nat, e: Err, last: Entry)
    requires last.attempt == attempt
    requires e == (if last.outcome.Threw? then last.outcome.e
                   else if last.outcome.Drained? && last.unsettled.Some? then last.unsettled.value else StreamStall)
    ensures Translate(k, attempt, e) == ErrorOf(last, k)
  {}
}
