/**
 * Runs of one stream read in both ways: raw reads, which hand out what arrived, and reads through a
 * filter, which hold a partial line back. What each raw read returns follows from the events alone.
 */
module RawReads {
  import opened Text
  import opened Channel

  datatype Event = Produce(s: string) | Raw | Lines(re: Filter) | Exit

  /** The stream, whether the process runs, and the texts returned so far. */
  datatype Run = Run(ch: Channel, running: bool, texts: seq<string>)

  function Step(r: Run, e: Event, cap: nat): Run
    requires r.ch.returned <= |r.ch.history|
  {
    match e
    case Produce(s) => r.(ch := Extend(r.ch, s))
    case Exit => r.(running := false)
    case Raw =>
      var (ch, text) := ReadRaw(r.ch, cap);
      r.(ch := ch, texts := r.texts + [text])
    case Lines(re) =>
      var (ch, text) := ReadFiltered(r.ch, cap, r.running, re);
      r.(ch := ch, texts := r.texts + [text])
  }

  function RunAll(events: seq<Event>, cap: nat): (r: Run)
    ensures r.ch.returned <= |r.ch.history|
  {
    if events == [] then Run(EMPTY, true, [])
    else Step(RunAll(events[..|events| - 1], cap), events[|events| - 1], cap)
  }

  // ------------------------------------------------------------------- said on the events alone

  predicate IsRead(e: Event) { e.Raw? || e.Lines? }

  /** All the output of some events. */
  function Produced(events: seq<Event>): string {
    if events == [] then ""
    else Produced(events[..|events| - 1]) + if events[|events| - 1].Produce? then events[|events| - 1].s else ""
  }

  /** The output since the last read of either kind. */
  function SinceRead(events: seq<Event>): string {
    if events == [] || IsRead(events[|events| - 1]) then ""
    else SinceRead(events[..|events| - 1]) + if events[|events| - 1].Produce? then events[|events| - 1].s else ""
  }

  /** The last read, if there was one, was raw. */
  predicate NoneHeld(events: seq<Event>) {
    events == [] || events[|events| - 1].Raw? || (!events[|events| - 1].Lines? && NoneHeld(events[..|events| - 1]))
  }

  /** At most the last `cap` characters. */
  ghost predicate IsRetained(kept: string, s: string, cap: nat) {
    if |s| <= cap then kept == s else |kept| == cap && exists dropped :: s == dropped + kept
  }

  // --------------------------------------------------------------------------- what a read returns

  /** Behind any events: what is unread is what arrived since the last read, and a raw read leaves nothing held. */
  lemma {:induction false} RunStands(events: seq<Event>, cap: nat)
    ensures var ch := RunAll(events, cap).ch;
      && Continuous(ch) && ch.history == Produced(events) && ch.history[ch.returned..] == SinceRead(events)
      && (NoneHeld(events) ==> ch.carry == "")
    decreases |events|
  {
    hide Continuous, Step;
    if events == [] {
      EmptyContinuous();
    } else {
      var n := |events| - 1;
      RunStands(events[..n], cap);
      StepStands(RunAll(events[..n], cap), events[n], cap);
      hide RunAll;
      RunStep(events, cap);
    }
  }

  lemma RunStep(events: seq<Event>, cap: nat)
    requires events != []
    ensures RunAll(events, cap) == Step(RunAll(events[..|events| - 1], cap), events[|events| - 1], cap)
  {
    hide Step;
  }

  /** The process runs until its exit. */
  lemma {:induction false} RunsUntilExit(events: seq<Event>, cap: nat)
    ensures RunAll(events, cap).running <==> forall k :: 0 <= k < |events| ==> !events[k].Exit?
    decreases |events|
  {
    hide ReadFiltered, ReadRaw, Extend;
    if events != [] {
      var n := |events| - 1;
      RunsUntilExit(events[..n], cap);
      assert forall k :: 0 <= k < n ==> events[..n][k] == events[k];
    }
  }

  lemma StepStands(r: Run, e: Event, cap: nat)
    requires Continuous(r.ch) && r.ch.returned <= |r.ch.history|
    ensures var ch := Step(r, e, cap).ch;
      && Continuous(ch) && ch.returned <= |ch.history|
      && ch.history == r.ch.history + (if e.Produce? then e.s else "")
      && ch.history[ch.returned..] ==
           (if IsRead(e) then "" else r.ch.history[r.ch.returned..] + if e.Produce? then e.s else "")
      && (e.Raw? ==> ch.carry == "") && (!IsRead(e) ==> ch.carry == r.ch.carry)
  {
    hide Continuous, Cut, Combined, FilterLines, Unread;
    match e {
      case Produce(s) => ExtendKeepsContinuous(r.ch, s);
      case Exit =>
      case Raw => ReadKeepsContinuous(r.ch, cap, true, All());
      case Lines(re) => ReadKeepsContinuous(r.ch, cap, r.running, re);
    }
  }

  lemma UnreadIsRetained(ch: Channel, cap: nat)
    requires ch.returned <= |ch.history|
    ensures IsRetained(Unread(ch, cap), ch.history[ch.returned..], cap)
    ensures Truncated(ch, cap) <==> |ch.history[ch.returned..]| > cap
  {
    var s, kept := ch.history[ch.returned..], Unread(ch, cap);
    if |s| > cap {
      assert s == s[..|s| - cap] + kept;
    }
  }

  /** A raw read returns what arrived since the last read of either kind, or the end of it that the cap retains. */
  lemma RawReturns(events: seq<Event>, cap: nat)
    requires events != [] && events[|events| - 1].Raw?
    ensures var front := events[..|events| - 1];
      var texts := RunAll(events, cap).texts;
      && |texts| == |RunAll(front, cap).texts| + 1 && texts[..|texts| - 1] == RunAll(front, cap).texts
      && IsRetained(texts[|texts| - 1], SinceRead(front), cap)
  {
    hide Continuous, ReadFiltered, Unread, IsRetained;
    var front := events[..|events| - 1];
    RunStands(front, cap);
    UnreadIsRetained(RunAll(front, cap).ch, cap);
  }

  /** A filtered read behind a raw one sees only what arrived since: the held-back part is not shown again. */
  lemma LinesBehindRaw(events: seq<Event>, cap: nat, re: Filter, kept: string)
    requires NoneHeld(events) && IsRetained(kept, SinceRead(events), cap)
    ensures var r := RunAll(events + [Lines(re)], cap);
      && r.texts != [] && r.texts[|r.texts| - 1] ==
           FilterLines(Cut(kept, forall k :: 0 <= k < |events| ==> !events[k].Exit?).0, re)
  {
    hide Continuous, Cut, FilterLines, Unread, IsRetained, NoneHeld, SinceRead, Truncated;
    RunStands(events, cap);
    RunsUntilExit(events, cap);
    var ch := RunAll(events, cap).ch;
    UnreadIsRetained(ch, cap);
    RetainedOneWay(kept, Unread(ch, cap), SinceRead(events), cap);
    assert (events + [Lines(re)])[..|events|] == events;
    assert Combined(ch, cap) == kept;
  }

  lemma RetainedOneWay(a: string, b: string, s: string, cap: nat)
    requires IsRetained(a, s, cap) && IsRetained(b, s, cap)
    ensures a == b
  {
    if |s| > cap {
      var x :| s == x + a;
      var y :| s == y + b;
      assert a == s[|s| - cap..] == b;
    }
  }

  // ---------------------------------------------------------------------------- nothing lost, nothing twice

  function Concat(texts: seq<string>): string {
    if texts == [] then "" else Concat(texts[..|texts| - 1]) + texts[|texts| - 1]
  }

  /** Some read comes after more than `cap` new characters. */
  ghost predicate Evicts(events: seq<Event>, cap: nat) {
    exists k :: ReadAt(events, k) && |SinceRead(events[..k])| > cap
  }

  predicate ReadAt(events: seq<Event>, k: int) {
    0 <= k < |events| && IsRead(events[k])
  }

  /**
   * As long as all reads are raw and none comes too late: the texts returned so far, and behind them
   * what is not read yet, are exactly the output.
   */
  lemma {:induction false} RawReadsDeliverAll(events: seq<Event>, cap: nat)
    requires !Evicts(events, cap) && forall k :: 0 <= k < |events| ==> !events[k].Lines?
    ensures Concat(RunAll(events, cap).texts) + SinceRead(events) == Produced(events)
    decreases |events|
  {
    hide Continuous, ReadFiltered, ReadRaw, Evicts;
    if events != [] {
      var n := |events| - 1;
      var front := events[..n];
      EvictsFront(events, cap);
      RawReadsDeliverAll(front, cap);
      var texts := RunAll(front, cap).texts;
      var more := if events[n].Produce? then events[n].s else "";
      if events[n].Raw? {
        RawReturns(events, cap);
        var all := RunAll(events, cap).texts;
        assert all[|all| - 1] == SinceRead(front);
        assert Concat(all) == Concat(texts) + SinceRead(front);
        assert Concat(all) + "" == Concat(all);
      } else {
        assert RunAll(events, cap).texts == texts;
        assert Concat(texts) + (SinceRead(front) + more) == Concat(texts) + SinceRead(front) + more;
      }
    }
  }

  lemma EvictsFront(events: seq<Event>, cap: nat)
    requires events != [] && !Evicts(events, cap)
    ensures !Evicts(events[..|events| - 1], cap)
    ensures IsRead(events[|events| - 1]) ==> |SinceRead(events[..|events| - 1])| <= cap
  {
    var n := |events| - 1;
    assert ReadAt(events, n) <==> IsRead(events[n]);
    forall k | ReadAt(events[..n], k) ensures |SinceRead(events[..n][..k])| <= cap {
      assert ReadAt(events, k) && events[..n][..k] == events[..k];
    }
  }

  /** Up to a last raw read that is the whole output. */
  lemma RawReadsReturnOutput(events: seq<Event>, cap: nat)
    requires !Evicts(events, cap) && forall k :: 0 <= k < |events| ==> !events[k].Lines?
    requires events != [] && events[|events| - 1].Raw?
    ensures Concat(RunAll(events, cap).texts) == Produced(events)
  {
    RawReadsDeliverAll(events, cap);
    assert SinceRead(events) == "";
  }
}
