/**
 * Whole runs of one stream: chunks arriving, reads through one filter, and the exit of the process,
 * in any order. What the reader got is compared with simply filtering the whole output.
 */
module OutputRuns {
  import opened Text
  import opened Channel

  datatype Event = Produce(s: string) | ReadLines | Exit

  /**
   * `out` holds what the reads returned and `lost` whether one of them reported a gap. The last three
   * fields only record what happened: `seen` is the output with a newline added behind each partial
   * line that was flushed after the exit, `flushed` says that such a newline is the last character,
   * and `splits` counts the flushed lines that later output went on with.
   */
  datatype Run = Run(ch: Channel, running: bool, out: seq<string>, lost: bool,
                     seen: string, flushed: bool, splits: nat)

  const INITIAL := Run(EMPTY, true, [], false, "", false, 0)

  function Step(r: Run, e: Event, cap: nat, re: Filter): Run
    requires r.ch.returned <= |r.ch.history|
  {
    match e
    case Produce(s) =>
      var goesOn := r.flushed && s != "" && s[0] != '\n';
      r.(ch := Extend(r.ch, s), seen := r.seen + s,
         flushed := r.flushed && s == "", splits := r.splits + if goesOn then 1 else 0)
    case Exit => r.(running := false)
    case ReadLines =>
      var combined := Combined(r.ch, cap);
      var flush := !r.running && !Boundary(combined);
      var (ch, text) := ReadFiltered(r.ch, cap, r.running, re);
      r.(ch := ch, out := r.out + [text], lost := r.lost || Truncated(r.ch, cap),
         seen := if flush then r.seen + "\n" else r.seen, flushed := r.flushed || flush)
  }

  function RunAll(events: seq<Event>, cap: nat, re: Filter): (r: Run)
    ensures r.ch.returned <= |r.ch.history|
  {
    if events == [] then INITIAL
    else Step(RunAll(events[..|events| - 1], cap, re), events[|events| - 1], cap, re)
  }

  /** The non-empty lines handed to the reader, in order. */
  function Delivered(out: seq<string>): seq<string> {
    if out == [] then []
    else Delivered(out[..|out| - 1]) + Matching(out[|out| - 1], All())
  }

  // ------------------------------------------------------------------------------- nothing is lost

  /** The part of `seen` whose lines have been dealt with. */
  function Settled(r: Run): string
    requires r.ch.returned <= |r.ch.history|
  {
    var pending := |r.ch.carry| + |r.ch.history| - r.ch.returned;
    if pending <= |r.seen| then r.seen[..|r.seen| - pending] else ""
  }

  ghost predicate Inv(r: Run, re: Filter) {
    && Continuous(r.ch)
    && r.seen == Settled(r) + (r.ch.carry + r.ch.history[r.ch.returned..])
    && Boundary(Settled(r))
    && Delivered(r.out) == Matching(Settled(r), re)
    && (r.flushed ==> r.ch.carry == "" && r.ch.returned == |r.ch.history| && r.seen != "")
  }

  /** What one cut settles: a stretch of complete lines whose matching lines were returned. */
  lemma CutSettles(x: string, combined: string, running: bool, re: Filter) returns (y: string)
    requires Boundary(x)
    ensures var (complete, rest) := Cut(combined, running);
      && Boundary(y) && Matching(y, re) == Matching(x, re) + Matching(complete, re)
      && y + rest == (if !running && !Boundary(combined) then x + combined + "\n" else x + combined)
  {
    hide Cut, Matching;
    if !running && !Boundary(combined) {
      y := FlushSettles(x, combined, re);
    } else {
      y := LinesSettle(x, combined, running, re);
    }
  }

  lemma FlushSettles(x: string, combined: string, re: Filter) returns (y: string)
    requires Boundary(x)
    ensures y == x + combined + "\n" && Cut(combined, false).1 == ""
    ensures Matching(y, re) == Matching(x, re) + Matching(Cut(combined, false).0, re)
  {
    hide Matching, Cut;
    CutParts(combined, false);
    CutMatching(combined, false, re);
    MatchingEmpty(re);
    y := x + combined + "\n";
    MatchingConcat(combined, "", re);
    assert combined + "\n" + "" == combined + "\n" && x + (combined + "\n") == y;
    MatchingBehindBoundary(x, combined + "\n", re);
  }

  lemma LinesSettle(x: string, combined: string, running: bool, re: Filter) returns (y: string)
    requires Boundary(x) && (running || Boundary(combined))
    ensures Boundary(y) && y + Cut(combined, running).1 == x + combined
    ensures Matching(y, re) == Matching(x, re) + Matching(Cut(combined, running).0, re)
  {
    hide Matching, Cut;
    var (complete, rest) := Cut(combined, running);
    CutParts(combined, running);
    CutFront(combined, running);
    MatchingEmpty(re);
    var front := combined[..|combined| - |rest|];
    assert combined == front + rest;
    y := x + front;
    Regroup(x, front, rest);
    MatchingBehindBoundary(x, front, re);
    if front != "" {
      MatchingConcat(complete, "", re);
      assert complete + "\n" + "" == complete + "\n";
    }
  }

  lemma Regroup(a: string, b: string, c: string)
    ensures a + b + c == a + (b + c)
  {}

  lemma CutFront(combined: string, running: bool)
    requires running || Boundary(combined)
    ensures var (complete, rest) := Cut(combined, running);
      && |rest| <= |combined|
      && var front := combined[..|combined| - |rest|];
         (front == "" && complete == "") || front == complete + "\n"
  {
    var nl := LastNewline(combined);
    if nl >= 0 {
      assert combined[..nl + 1] == combined[..nl] + "\n";
    }
  }

  /** A run is in order when some settled text in front of what is pending accounts for all returned lines. */
  lemma InOrder(r: Run, re: Filter, y: string)
    requires Continuous(r.ch) && r.seen == y + (r.ch.carry + r.ch.history[r.ch.returned..])
    requires Boundary(y) && Delivered(r.out) == Matching(y, re)
    requires r.flushed ==> r.ch.carry == "" && r.ch.returned == |r.ch.history| && r.seen != ""
    ensures Inv(r, re)
  {
    hide Matching, Delivered;
    assert Settled(r) == y;
  }

  lemma ReadKeepsInv(r: Run, cap: nat, re: Filter)
    requires Inv(r, re) && !Truncated(r.ch, cap)
    ensures Inv(Step(r, ReadLines, cap, re), re)
  {
    hide Cut, Matching, FilterLines, Truncated, Continuous, Settled, Delivered;
    ReturnedInside(r.ch);
    var combined := Combined(r.ch, cap);
    assert combined == r.ch.carry + r.ch.history[r.ch.returned..] by { ReadRest(r.ch, cap); }
    var (complete, rest) := Cut(combined, r.running);
    var y := CutSettles(Settled(r), combined, r.running, re);
    CutParts(combined, r.running);
    ReadKeepsContinuous(r.ch, cap, r.running, re);
    var next := Step(r, ReadLines, cap, re);
    assert next.seen == y + rest;
    assert rest + next.ch.history[|next.ch.history|..] == rest;
    DeliveredSnoc(r.out, FilterLines(complete, re));
    FilterLinesMatching(complete, re);
    InOrder(next, re, y);
  }

  lemma ReadRest(ch: Channel, cap: nat)
    requires ch.returned <= |ch.history| && !Truncated(ch, cap)
    ensures Combined(ch, cap) == ch.carry + ch.history[ch.returned..]
  {}

  lemma DeliveredSnoc(out: seq<string>, text: string)
    ensures Delivered(out + [text]) == Delivered(out) + Matching(text, All())
  {
    hide Matching;
    assert (out + [text])[..|out|] == out;
  }

  lemma ProduceKeepsInv(r: Run, s: string, cap: nat, re: Filter)
    requires Inv(r, re)
    ensures Inv(Step(r, Produce(s), cap, re), re)
  {
    hide Matching, Continuous, Delivered, Settled;
    ReturnedInside(r.ch);
    var next := Step(r, Produce(s), cap, re);
    ExtendKeepsContinuous(r.ch, s);
    var pending := r.ch.history[r.ch.returned..];
    assert next.ch.history[r.ch.returned..] == pending + s;
    assert next.seen == Settled(r) + (r.ch.carry + (pending + s));
    InOrder(next, re, Settled(r));
  }

  lemma ReturnedInside(ch: Channel)
    requires Continuous(ch)
    ensures ch.returned <= |ch.history|
  {}

  lemma ExitKeepsInv(r: Run, cap: nat, re: Filter)
    requires Inv(r, re)
    ensures Inv(Step(r, Exit, cap, re), re)
  {
    hide Matching, Continuous, Delivered;
    ReturnedInside(r.ch);
    InOrder(Step(r, Exit, cap, re), re, Settled(r));
  }

  /** As long as no read reported a gap, the returned lines are accounted for after every event. */
  lemma {:induction false} RunInv(events: seq<Event>, cap: nat, re: Filter)
    requires !RunAll(events, cap, re).lost
    ensures Inv(RunAll(events, cap, re), re)
    decreases |events|
  {
    hide Inv, Truncated, Combined, ReadFiltered;
    if events == [] {
      InitialInOrder(re);
    } else {
      var n := |events| - 1;
      RunInv(events[..n], cap, re);
      var r := RunAll(events[..n], cap, re);
      match events[n] {
        case Produce(s) => ProduceKeepsInv(r, s, cap, re);
        case ReadLines => ReadKeepsInv(r, cap, re);
        case Exit => ExitKeepsInv(r, cap, re);
      }
    }
  }

  lemma InitialInOrder(re: Filter)
    ensures Inv(INITIAL, re)
  {
    hide Matching;
    MatchingEmpty(re);
    InOrder(INITIAL, re, "");
  }

  /** The last event is a read after the process has exited. */
  predicate ReadToTheEnd(events: seq<Event>) {
    events != [] && events[|events| - 1] == ReadLines && Exit in events
  }

  lemma {:induction false} ExitStops(events: seq<Event>, cap: nat, re: Filter)
    ensures RunAll(events, cap, re).running <==> Exit !in events
    decreases |events|
  {
    hide ReadFiltered, Combined, Truncated;
    if events != [] {
      var n := |events| - 1;
      ExitStops(events[..n], cap, re);
      assert events == events[..n] + [events[n]];
    }
  }

  /**
   * A complete read without gaps returns, in order, exactly the matching non-empty lines of the
   * output as it was cut by the flushes after the exit.
   */
  lemma ReadsDeliverSeen(events: seq<Event>, cap: nat, re: Filter)
    requires ReadToTheEnd(events) && !RunAll(events, cap, re).lost
    ensures Delivered(RunAll(events, cap, re).out) == Matching(RunAll(events, cap, re).seen, re)
  {
    hide Matching, Cut, Combined, Truncated, FilterLines, Delivered;
    RunInv(events, cap, re);
    var n := |events| - 1;
    assert events == events[..n] + [events[n]];
    ExitStops(events[..n], cap, re);
    var before, r := RunAll(events[..n], cap, re), RunAll(events, cap, re);
    CutParts(Combined(before.ch, cap), false);
    assert r.ch.carry == "" && r.ch.returned == |r.ch.history|;
    assert r.ch.carry + r.ch.history[r.ch.returned..] == "";
    assert r.seen == Settled(r) + "" == Settled(r);
  }

  // ------------------------------------------------------ when the cuts agree with the real lines

  /** The two texts have the same matching lines, whatever is appended to both. */
  ghost predicate SameLines(t: string, h: string, re: Filter) {
    forall z :: Matching(t + z, re) == Matching(h + z, re)
  }

  lemma SameLinesNow(t: string, h: string, re: Filter)
    requires SameLines(t, h, re)
    ensures Matching(t, re) == Matching(h, re)
  {
    hide Matching;
    assert t + "" == t && h + "" == h;
  }

  lemma SameLinesLater(t: string, h: string, s: string, re: Filter)
    requires SameLines(t, h, re)
    ensures SameLines(t + s, h + s, re)
  {
    hide Matching;
    forall z ensures Matching(t + s + z, re) == Matching(h + s + z, re) {
      assert t + s + z == t + (s + z) && h + s + z == h + (s + z);
    }
  }

  /** Adding a newline where a newline follows anyway changes no line. */
  lemma NewlineTwice(t: string, h: string, s: string, re: Filter)
    requires SameLines(t, h, re) && s != "" && s[0] == '\n'
    ensures SameLines(t + "\n" + s, h + s, re)
  {
    hide Matching;
    SameLinesNow(t, h, re);
    MatchingEmpty(re);
    var s' := s[1..];
    forall z ensures Matching(t + "\n" + s + z, re) == Matching(h + s + z, re) {
      assert t + "\n" + s + z == t + "\n" + ("" + "\n" + (s' + z));
      assert h + s + z == h + "\n" + (s' + z);
      MatchingConcat(t, "" + "\n" + (s' + z), re);
      MatchingConcat("", s' + z, re);
      MatchingConcat(h, s' + z, re);
    }
  }

  /** `seen` without the newline a flush added last. */
  function Base(r: Run): string {
    if r.flushed && r.seen != "" then r.seen[..|r.seen| - 1] else r.seen
  }

  ghost predicate Agrees(r: Run, re: Filter) {
    && (r.flushed ==> r.seen == Base(r) + "\n" && r.ch.carry == "" && r.ch.returned == |r.ch.history|)
    && (r.splits == 0 ==> SameLines(Base(r), r.ch.history, re))
  }

  lemma AgreesStep(r: Run, e: Event, cap: nat, re: Filter)
    requires Continuous(r.ch) && Agrees(r, re)
    ensures Agrees(Step(r, e, cap, re), re)
  {
    hide Matching, Cut, FilterLines, SameLines, Truncated;
    ReturnedInside(r.ch);
    var next := Step(r, e, cap, re);
    match e {
      case Exit =>
      case ReadLines =>
        CutParts(Combined(r.ch, cap), r.running);
        if r.flushed { NothingPending(r.ch, cap); }
        assert (r.seen + "\n")[..|r.seen|] == r.seen;
      case Produce(s) =>
        if s == "" {
          assert r.seen + s == r.seen && r.ch.history + s == r.ch.history;
        } else if next.splits == 0 {
          if r.flushed {
            NewlineTwice(Base(r), r.ch.history, s, re);
          } else {
            SameLinesLater(r.seen, r.ch.history, s, re);
          }
        }
    }
  }

  lemma NothingPending(ch: Channel, cap: nat)
    requires ch.carry == "" && ch.returned == |ch.history|
    ensures Combined(ch, cap) == ""
  {}

  lemma {:induction false} RunAgrees(events: seq<Event>, cap: nat, re: Filter)
    ensures Continuous(RunAll(events, cap, re).ch) && Agrees(RunAll(events, cap, re), re)
    decreases |events|
  {
    hide Matching, Agrees, Continuous, Combined, ReadFiltered, Truncated;
    if events == [] {
      InitialAgrees(re);
    } else {
      var n := |events| - 1;
      RunAgrees(events[..n], cap, re);
      var r := RunAll(events[..n], cap, re);
      AgreesStep(r, events[n], cap, re);
      StepKeepsContinuous(r, events[n], cap, re);
    }
  }

  lemma InitialAgrees(re: Filter)
    ensures Continuous(INITIAL.ch) && Agrees(INITIAL, re)
  {}

  lemma StepKeepsContinuous(r: Run, e: Event, cap: nat, re: Filter)
    requires Continuous(r.ch) && r.ch.returned <= |r.ch.history|
    ensures Continuous(Step(r, e, cap, re).ch)
  {
    hide Continuous, ReadFiltered, Combined, Truncated;
    match e {
      case Exit =>
      case Produce(s) => ExtendKeepsContinuous(r.ch, s);
      case ReadLines => ReadKeepsContinuous(r.ch, cap, r.running, re);
    }
  }

  /** Without gaps and splits the reader got the matching lines of the output. */
  lemma UnsplitDelivers(events: seq<Event>, cap: nat, re: Filter)
    requires ReadToTheEnd(events) && !RunAll(events, cap, re).lost && RunAll(events, cap, re).splits == 0
    ensures Delivered(RunAll(events, cap, re).out) == Matching(RunAll(events, cap, re).ch.history, re)
  {
    hide Matching, Delivered, RunAll;
    ReadsDeliverSeen(events, cap, re);
    RunAgrees(events, cap, re);
    var r := RunAll(events, cap, re);
    SameLinesNow(Base(r), r.ch.history, re);
    if r.flushed {
      MatchingConcat(Base(r), "", re);
      MatchingEmpty(re);
      assert Base(r) + "\n" + "" == r.seen;
    }
  }

  // ------------------------------------------------------------------------ and only then

  /** Non-empty lines that `s` adds behind a text that ends with a newline (or is empty), or does not. */
  function Added(s: string, boundary: bool): int {
    |Matching(s, All())| - if !boundary && s != "" && s[0] != '\n' then 1 else 0
  }

  lemma OneLine(b: string)
    requires '\n' !in b
    ensures Matching(b, All()) == if b == "" then [] else [b]
  {
    NoChar(b, '\n');
    assert Split(b, "\n") == [b];
    assert Keep([b], NonEmpty(All())) == (if b != "" then [b] else []) + Keep([], NonEmpty(All()));
  }

  lemma {:induction false} FirstBreak(s: string) returns (n: nat)
    requires '\n' in s
    ensures n < |s| && s[n] == '\n' && '\n' !in s[..n]
    decreases |s|
  {
    if s[0] == '\n' {
      n := 0;
    } else {
      assert s == [s[0]] + s[1..];
      var m := FirstBreak(s[1..]);
      n := m + 1;
      assert s[..n] == [s[0]] + s[1..][..m];
    }
  }

  lemma CountBehindPartial(b: string, s: string)
    requires b != "" && '\n' !in b
    ensures |Matching(b + s, All())| == 1 + Added(s, false)
  {
    hide Matching;
    MatchingEmpty(All());
    if '\n' in s {
      var n := FirstBreak(s);
      assert s == s[..n] + "\n" + s[n + 1..];
      assert b + s == b + s[..n] + "\n" + s[n + 1..];
      MatchingConcat(s[..n], s[n + 1..], All());
      MatchingConcat(b + s[..n], s[n + 1..], All());
      OneLine(s[..n]);
      OneLine(b + s[..n]);
    } else {
      OneLine(s);
      OneLine(b + s);
    }
  }

  /** Appending adds as many non-empty lines as the last character before it allows. */
  lemma CountAppend(x: string, s: string)
    ensures |Matching(x + s, All())| == |Matching(x, All())| + Added(s, Boundary(x))
  {
    hide Matching;
    if Boundary(x) {
      MatchingBehindBoundary(x, s, All());
    } else {
      hide Added;
      var nl := LastNewline(x);
      var front, b := x[..nl + 1], x[nl + 1..];
      assert x == front + b && x + s == front + (b + s);
      CountBehindFront(front, b, s);
    }
  }

  lemma CountBehindFront(front: string, b: string, s: string)
    requires Boundary(front) && b != "" && '\n' !in b
    ensures |Matching(front + (b + s), All())| == |Matching(front + b, All())| + Added(s, false)
  {
    hide Matching, Added;
    MatchingBehindBoundary(front, b, All());
    MatchingBehindBoundary(front, b + s, All());
    OneLine(b);
    CountBehindPartial(b, s);
  }

  ghost predicate Counted(r: Run) {
    && (r.flushed ==> Boundary(r.seen) && !Boundary(r.ch.history))
    && (r.flushed ==> r.ch.carry == "" && r.ch.returned == |r.ch.history|)
    && (!r.flushed ==> (Boundary(r.seen) <==> Boundary(r.ch.history)))
    && |Matching(r.seen, All())| == |Matching(r.ch.history, All())| + r.splits
  }

  lemma CountedStep(r: Run, e: Event, cap: nat, re: Filter)
    requires Continuous(r.ch) && Counted(r) && (e.ReadLines? ==> !Truncated(r.ch, cap))
    ensures Counted(Step(r, e, cap, re))
  {
    hide Matching, Cut, FilterLines, Truncated;
    ReturnedInside(r.ch);
    var next := Step(r, e, cap, re);
    match e {
      case Exit =>
      case ReadLines =>
        NothingPendingOrLast(r.ch, cap);
        CutParts(Combined(r.ch, cap), r.running);
        if !r.running && !Boundary(Combined(r.ch, cap)) {
          MatchingConcat(r.seen, "", All());
          MatchingEmpty(All());
          assert r.seen + "\n" + "" == r.seen + "\n";
        }
      case Produce(s) =>
        CountAppend(r.seen, s);
        CountAppend(r.ch.history, s);
        if s == "" {
          assert r.seen + s == r.seen && r.ch.history + s == r.ch.history;
        }
    }
  }

  lemma NothingPendingOrLast(ch: Channel, cap: nat)
    requires Continuous(ch) && !Truncated(ch, cap)
    ensures Combined(ch, cap) != "" ==> (Boundary(Combined(ch, cap)) <==> Boundary(ch.history))
    ensures ch.carry == "" && ch.returned == |ch.history| ==> Combined(ch, cap) == ""
  {
    hide Truncated;
    ReadRest(ch, cap);
    CombinedIsStretch(ch, cap);
  }

  lemma {:induction false} RunCounted(events: seq<Event>, cap: nat, re: Filter)
    requires !RunAll(events, cap, re).lost
    ensures Counted(RunAll(events, cap, re))
    decreases |events|
  {
    hide Counted, Continuous, Combined, ReadFiltered, Truncated;
    if events == [] {
      InitialCounted();
    } else {
      var n := |events| - 1;
      RunCounted(events[..n], cap, re);
      RunAgrees(events[..n], cap, re);
      CountedStep(RunAll(events[..n], cap, re), events[n], cap, re);
    }
  }

  lemma InitialCounted()
    ensures Counted(INITIAL)
  {}

  // -------------------------------------------------------------- the conditions, read off the events

  function Produced(events: seq<Event>): string {
    if events == [] then ""
    else
      var last := events[|events| - 1];
      Produced(events[..|events| - 1]) + if last.Produce? then last.s else ""
  }

  /** Characters produced since the last read. */
  function SinceRead(events: seq<Event>): nat {
    if events == [] then 0
    else
      match events[|events| - 1]
      case ReadLines => 0
      case Exit => SinceRead(events[..|events| - 1])
      case Produce(s) => SinceRead(events[..|events| - 1]) + |s|
  }

  /** Some read comes too late: more than the cap was produced since the one before. */
  ghost predicate Evicts(events: seq<Event>, cap: nat) {
    exists n :: 0 <= n < |events| && TooLate(events, n, cap)
  }

  predicate TooLate(events: seq<Event>, n: int, cap: nat)
    requires 0 <= n < |events|
  {
    events[n].ReadLines? && SinceRead(events[..n]) > cap
  }

  predicate Arrives(e: Event) { e.Produce? && e.s != "" }

  /** A read behind the exit met output that ends in a partial line, and nothing has arrived since. */
  ghost predicate Flushed(events: seq<Event>) {
    !Boundary(Produced(events)) && exists b :: 0 <= b < |events| && FlushAt(events, b)
  }

  ghost predicate FlushAt(events: seq<Event>, b: int)
    requires 0 <= b < |events|
  {
    events[b].ReadLines? && Exit in events[..b] && forall k :: b < k < |events| ==> !Arrives(events[k])
  }

  predicate GoesOn(e: Event) { e.Produce? && e.s != "" && e.s[0] != '\n' }

  /** Output goes on with a line that was flushed behind the exit. */
  ghost predicate LineSplits(events: seq<Event>) {
    exists n :: 0 <= n < |events| && GoesOn(events[n]) && Flushed(events[..n])
  }

  /** The history is the output and the cursor is where the last read left it. */
  lemma {:induction false} RunReads(events: seq<Event>, cap: nat, re: Filter)
    ensures var r := RunAll(events, cap, re);
      r.ch.history == Produced(events) && |r.ch.history| - r.ch.returned == SinceRead(events)
    decreases |events|
  {
    hide Cut, FilterLines, Combined, Truncated, Boundary;
    if events != [] { RunReads(events[..|events| - 1], cap, re); }
  }

  /** A gap is reported if and only if some read comes too late. */
  lemma {:induction false} LostIff(events: seq<Event>, cap: nat, re: Filter)
    ensures RunAll(events, cap, re).lost <==> Evicts(events, cap)
    decreases |events|
  {
    hide ReadFiltered, Combined, Produced, SinceRead;
    if events != [] {
      var n := |events| - 1;
      var front := events[..n];
      LostIff(front, cap, re);
      RunReads(front, cap, re);
      forall k | 0 <= k < n ensures TooLate(events, k, cap) <==> TooLate(front, k, cap) {
        assert front[..k] == events[..k];
      }
      TooLateIff(RunAll(front, cap, re).ch, cap);
      hide Truncated, TooLate;
      assert Evicts(events, cap) <==> Evicts(front, cap) || TooLate(events, n, cap) by { EvictsStep(events, cap); }
      LastTooLate(events, cap);
    }
  }

  lemma LastTooLate(events: seq<Event>, cap: nat)
    requires events != []
    ensures TooLate(events, |events| - 1, cap) <==>
      events[|events| - 1].ReadLines? && SinceRead(events[..|events| - 1]) > cap
  {}

  lemma EvictsStep(events: seq<Event>, cap: nat)
    requires events != []
    requires forall k :: 0 <= k < |events| - 1 ==>
      (TooLate(events, k, cap) <==> TooLate(events[..|events| - 1], k, cap))
    ensures Evicts(events, cap) <==> Evicts(events[..|events| - 1], cap) || TooLate(events, |events| - 1, cap)
  {
    hide TooLate;
    var front := events[..|events| - 1];
    if Evicts(front, cap) {
      var k :| 0 <= k < |front| && TooLate(front, k, cap);
      assert TooLate(events, k, cap);
    }
  }

  lemma TooLateIff(ch: Channel, cap: nat)
    requires ch.returned <= |ch.history|
    ensures Truncated(ch, cap) <==> |ch.history| - ch.returned > cap
  {}

  /** Without gaps, nothing pending means that the output ends in a full line or was flushed. */
  lemma PendingOrBoundary(r: Run, cap: nat, re: Filter)
    requires Inv(r, re) && Counted(r) && !Truncated(r.ch, cap) && !r.flushed
    ensures Boundary(Combined(r.ch, cap)) <==> Boundary(r.ch.history)
  {
    hide Matching, Truncated;
    NothingPendingOrLast(r.ch, cap);
    ReadRest(r.ch, cap);
    if Combined(r.ch, cap) == "" {
      assert r.seen == Settled(r) + "" == Settled(r);
    }
  }

  /** Without gaps, the run has just flushed a partial line if and only if the events say so. */
  lemma {:induction false} FlushedIff(events: seq<Event>, cap: nat, re: Filter)
    requires !RunAll(events, cap, re).lost
    ensures RunAll(events, cap, re).flushed <==> Flushed(events)
    decreases |events|
  {
    hide Boundary, Combined, ReadFiltered, Truncated, Inv, Counted, Flushed, Produced;
    if events == [] {
      NothingFlushed();
    } else {
      var n := |events| - 1;
      var front := events[..n];
      var r := RunAll(front, cap, re);
      FlushedIff(front, cap, re);
      FlushedStep(events);
      if events[n].ReadLines? {
        RunInv(front, cap, re);
        RunCounted(front, cap, re);
        RunReads(front, cap, re);
        ExitStops(front, cap, re);
        if !r.flushed { PendingOrBoundary(r, cap, re); }
      }
    }
  }

  lemma NothingFlushed()
    ensures !Flushed([])
  {}

  lemma FlushedStep(events: seq<Event>)
    requires events != []
    ensures var front, last := events[..|events| - 1], events[|events| - 1];
      Flushed(events) <==>
        !Arrives(last) && (Flushed(front) || (last.ReadLines? && Exit in front && !Boundary(Produced(front))))
  {
    hide Boundary;
    var n := |events| - 1;
    var front, last := events[..n], events[n];
    if !Arrives(last) {
      assert Produced(events) == Produced(front) + "" == Produced(front);
      hide Produced;
      forall b | 0 <= b < n ensures FlushAt(events, b) <==> FlushAt(front, b) {
        assert events[..b] == front[..b];
        assert forall k :: 0 <= k < n ==> events[k] == front[k];
      }
      assert FlushAt(events, n) <==> last.ReadLines? && Exit in front;
      hide FlushAt;
      if Flushed(front) {
        var b :| 0 <= b < n && FlushAt(front, b);
        assert FlushAt(events, b);
      }
    }
  }

  /** Without gaps, lines were split if and only if the events say so. */
  lemma {:induction false} SplitsIff(events: seq<Event>, cap: nat, re: Filter)
    requires !RunAll(events, cap, re).lost
    ensures RunAll(events, cap, re).splits == 0 <==> !LineSplits(events)
    decreases |events|
  {
    hide Boundary, Combined, ReadFiltered, Truncated, Flushed;
    if events != [] {
      var n := |events| - 1;
      var front := events[..n];
      SplitsIff(front, cap, re);
      FlushedIff(front, cap, re);
      SplitsStep(events);
    }
  }

  lemma SplitsStep(events: seq<Event>)
    requires events != []
    ensures var front, last := events[..|events| - 1], events[|events| - 1];
      LineSplits(events) <==> LineSplits(front) || (GoesOn(last) && Flushed(front))
  {
    hide Flushed, GoesOn;
    var n := |events| - 1;
    var front := events[..n];
    assert forall k :: 0 <= k < n ==> events[..k] == front[..k];
    if LineSplits(front) {
      var k :| 0 <= k < n && GoesOn(front[k]) && Flushed(front[..k]);
      assert GoesOn(events[k]) && Flushed(events[..k]);
    }
  }

  // --------------------------------------------------------------------------------- what is delivered

  /** What the reads returned is what filtering the whole output returns. */
  ghost predicate Complete(events: seq<Event>, cap: nat, re: Filter) {
    Delivered(RunAll(events, cap, re).out) == Matching(Produced(events), re)
  }

  /**
   * However the output is cut into chunks and reads: when no read comes too late, the last follows the
   * exit, and no flushed line goes on afterwards, the reader got exactly the matching non-empty lines
   * of the whole output.
   */
  lemma ReadsDeliverOutput(events: seq<Event>, cap: nat, re: Filter)
    requires ReadToTheEnd(events) && !Evicts(events, cap) && !LineSplits(events)
    ensures Complete(events, cap, re)
  {
    hide Matching, Delivered, RunAll, Evicts, LineSplits;
    LostIff(events, cap, re);
    SplitsIff(events, cap, re);
    RunReads(events, cap, re);
    UnsplitDelivers(events, cap, re);
  }

  /** Output that stops with the exit splits no line. */
  lemma QuietAfterExit(events: seq<Event>)
    requires forall m, n :: 0 <= m < n < |events| && events[m].Exit? ==> !Arrives(events[n])
    ensures !LineSplits(events)
  {
    hide Boundary, Produced;
    forall n | 0 <= n < |events| && GoesOn(events[n]) ensures !Flushed(events[..n]) {
      forall m | 0 <= m < n ensures events[m] != Exit {
        assert Arrives(events[n]);
      }
      NoExitNoFlush(events[..n]);
    }
  }

  lemma NoExitNoFlush(events: seq<Event>)
    requires forall m :: 0 <= m < |events| ==> events[m] != Exit
    ensures !Flushed(events)
  {
    hide Boundary, Produced;
    forall b | 0 <= b < |events| ensures Exit !in events[..b] {}
  }

  /**
   * When no read comes too late and the last follows the exit: every filter gets exactly its lines of
   * the output if and only if output never goes on with a line that was flushed behind the exit.
   */
  lemma AllLinesDeliveredIff(events: seq<Event>, cap: nat)
    requires ReadToTheEnd(events) && !Evicts(events, cap)
    ensures (forall re: Filter :: Complete(events, cap, re)) <==> !LineSplits(events)
    ensures Complete(events, cap, All()) <==> !LineSplits(events)
  {
    hide Complete, Evicts, LineSplits;
    forall re: Filter ensures !LineSplits(events) ==> Complete(events, cap, re) {
      if !LineSplits(events) { ReadsDeliverOutput(events, cap, re); }
    }
    SplitMissesLines(events, cap);
  }

  lemma SplitMissesLines(events: seq<Event>, cap: nat)
    requires ReadToTheEnd(events) && !Evicts(events, cap)
    ensures LineSplits(events) ==> !Complete(events, cap, All())
  {
    hide Matching, Delivered, RunAll, Evicts, LineSplits;
    LostIff(events, cap, All());
    SplitsIff(events, cap, All());
    RunReads(events, cap, All());
    ReadsDeliverSeen(events, cap, All());
    RunCounted(events, cap, All());
  }

  /** Any partial line flushed behind the exit that the output then goes on with is delivered in two. */
  lemma FlushedLineCanSplit(a: string, b: string, cap: nat)
    requires a != "" && '\n' !in a && b != "" && b[0] != '\n' && |a| <= cap && |b| <= cap
    ensures var events := [Produce(a), Exit, ReadLines, Produce(b), ReadLines];
      ReadToTheEnd(events) && !Evicts(events, cap) && !Complete(events, cap, All())
  {
    var events: seq<Event> := [Produce(a), Exit, ReadLines, Produce(b), ReadLines];
    hide Complete;
    assert events[1] == Exit && events[4] == ReadLines;
    Sizes(events, a, b);
    var front := events[..3];
    assert front[..2] == [Produce(a), Exit] && front[..2][1] == Exit && front[2].ReadLines?;
    assert FlushAt(front, 2);
    assert GoesOn(events[3]) && Flushed(front);
    SplitMissesLines(events, cap);
  }

  lemma Sizes(events: seq<Event>, a: string, b: string)
    requires events == [Produce(a), Exit, ReadLines, Produce(b), ReadLines]
    ensures Produced(events[..3]) == a && SinceRead(events[..2]) == |a| && SinceRead(events[..4]) == |b|
  {
    assert events[..1][..0] == [] && events[..2][..1] == events[..1];
    assert events[..3][..2] == events[..2] && events[..4][..3] == events[..3];
    assert Produced(events[..1]) == "" + a == a && SinceRead(events[..1]) == |a|;
    assert Produced(events[..2]) == a + "" == a && Produced(events[..3]) == a + "" == a;
  }

  // ---------------------------------------------------------------------------------- never a splice

  /** Every line of a returned text matches, holds no newline and is one stretch of the output. */
  ghost predicate Genuine(text: string, output: string, re: Filter) {
    forall line :: text != "" && line in Split(text, "\n") ==> re(line) && '\n' !in line && Occurs(output, line)
  }

  lemma ReadIsGenuine(ch: Channel, cap: nat, running: bool, re: Filter)
    requires Continuous(ch)
    ensures Genuine(ReadFiltered(ch, cap, running, re).1, ch.history, re)
  {
    hide Cut, Combined, Occurs;
    var complete := Cut(Combined(ch, cap), running).0;
    var lines := DeliveredLines(complete, re);
    forall line | line in lines ensures re(line) && '\n' !in line && Occurs(ch.history, line) {
      LinesAreNeverSpliced(ch, cap, running, re, line);
    }
    hide Split, Keep;
    var text := FilterLines(complete, re);
    if text != "" {
      assert lines != [] by { NoLines(complete, re); }
      SplitJoin(lines, '\n');
    }
  }

  lemma NoLines(complete: string, re: Filter)
    ensures FilterLines(complete, re) != "" ==>
      DeliveredLines(complete, re) != [] && FilterLines(complete, re) == Join(DeliveredLines(complete, re), "\n")
  {}

  lemma StaysGenuine(text: string, output: string, more: string, re: Filter)
    requires Genuine(text, output, re)
    ensures Genuine(text, output + more, re)
  {
    hide Split;
    forall line | text != "" && line in Split(text, "\n") ensures Occurs(output + more, line) {
      assert At(output + more, output, 0);
      OccursTrans(output + more, output, line);
    }
  }

  /** In every run, with or without gaps, every line the reader ever got is one newline-free stretch of the output. */
  lemma {:induction false} RunNeverSplices(events: seq<Event>, cap: nat, re: Filter)
    ensures forall text :: text in RunAll(events, cap, re).out ==> Genuine(text, Produced(events), re)
    decreases |events|
  {
    hide Genuine, ReadFiltered, Combined, Truncated, Continuous;
    if events != [] {
      var n := |events| - 1;
      var front := events[..n];
      var r := RunAll(front, cap, re);
      RunNeverSplices(front, cap, re);
      RunAgrees(front, cap, re);
      RunReads(front, cap, re);
      var more := if events[n].Produce? then events[n].s else "";
      assert Produced(events) == Produced(front) + more;
      forall text | text in r.out ensures Genuine(text, Produced(events), re) {
        StaysGenuine(text, Produced(front), more, re);
      }
      if events[n].ReadLines? {
        assert Produced(front) + "" == Produced(front);
        ReadIsGenuine(r.ch, cap, r.running, re);
      }
    }
  }
}
