/**
 * One managed background process: its two capped output streams, the held-back partial lines, and
 * the bookkeeping around its end.
 */
module BackgroundProcess {
  import opened Options
  import opened Text
  import opened Channel

  class CappedStream {
    var retained: string
    var produced: nat
    var returned: nat
    const cap: nat
    /** Everything ever appended. */
    ghost var history: string

    ghost predicate Valid()
      reads this
    {
      produced == |history| && returned <= produced && retained == Tail(history, cap)
    }

    constructor (cap: nat)
      ensures Valid() && this.cap == cap && history == "" && returned == 0
    {
      this.cap := cap;
      retained, produced, returned, history := "", 0, 0, "";
    }

    method Append(chunk: string)
      requires Valid()
      modifies this
      ensures Valid() && history == old(history) + chunk && returned == old(returned)
    {
      produced := produced + |chunk|;
      retained := retained + chunk;
      TailAppend(history, chunk, cap);
      history := history + chunk;
      if |retained| > cap {
        retained := retained[|retained| - cap..];
      }
    }

    /** What was produced, not yet returned and not evicted; the cursor moves to the end. */
    method Read() returns (chunk: string, truncated: bool)
      requires Valid()
      modifies this
      ensures Valid() && history == old(history) && returned == |history|
      ensures chunk == history[Later(old(returned), |history| - cap)..]
      ensures truncated <==> |history| - cap > old(returned)
      ensures chunk == Unread(Channel(history, old(returned), ""), cap)
      ensures truncated == Truncated(Channel(history, old(returned), ""), cap)
    {
      var retainedStart := produced - |retained|;
      var from := if returned > retainedStart then returned else retainedStart;
      chunk := retained[from - retainedStart..];
      truncated := retainedStart > returned;
      assert chunk == history[from..] by { TailDrop(history, cap, from); }
      returned := produced;
    }
  }

  function Later(i: int, j: int): int {
    if i >= j then i else j
  }

  /** What a read finds does not depend on the held-back partial line. */
  lemma CarryIrrelevant(ch: Channel, cap: nat)
    requires ch.returned <= |ch.history|
    ensures Unread(ch, cap) == Unread(ch.(carry := ""), cap) && Truncated(ch, cap) == Truncated(ch.(carry := ""), cap)
  {}

  lemma TailAppend(h: string, s: string, cap: nat)
    ensures Tail(h + s, cap) == var r := Tail(h, cap) + s; if |r| > cap then r[|r| - cap..] else r
  {
    var kept := Tail(h, cap);
    var skip, r := |h| - |kept|, kept + s;
    assert kept == h[skip..] && |kept| <= cap && (skip > 0 ==> |kept| == cap);
    var all := h + s;
    assert all[skip..] == r;
    if |r| > cap {
      assert r[|r| - cap..] == all[|all| - cap..];
    }
  }

  lemma TailDrop(h: string, cap: nat, from: nat)
    requires |h| - |Tail(h, cap)| <= from <= |h|
    ensures Tail(h, cap)[from - (|h| - |Tail(h, cap)|)..] == h[from..]
  {}

  /** What a poll asks for: raw bytes, a filter that does not compile, or the lines a filter accepts. */
  datatype Request = Raw | Invalid | Lines(re: Filter)

  datatype Output = Output(
    stdout: string, stderr: string, running: bool, exitCode: Option<int>, truncated: bool, error: bool)

  class Entry {
    const stdout: CappedStream
    const stderr: CappedStream
    var running: bool
    var exitCode: Option<int>
    var exitFired: bool
    var stdoutCarry: string
    var stderrCarry: string
    /** The exit codes reported to the completion callback. */
    ghost var reports: seq<Option<int>>

    ghost predicate Valid()
      reads this, stdout, stderr
    {
      && stdout != stderr && stdout.Valid() && stderr.Valid()
      && Continuous(Out()) && Continuous(Err())
      && (exitFired <==> |reports| == 1) && |reports| <= 1
      && (running ==> !exitFired && exitCode == None)
    }

    /** The standard output as its reader sees it. */
    ghost function Out(): Channel
      reads this, stdout
    {
      Channel(stdout.history, stdout.returned, stdoutCarry)
    }

    ghost function Err(): Channel
      reads this, stderr
    {
      Channel(stderr.history, stderr.returned, stderrCarry)
    }

    constructor (cap: nat)
      ensures Valid() && fresh(stdout) && fresh(stderr) && running && reports == []
      ensures Out() == EMPTY && Err() == EMPTY && stdout.cap == cap && stderr.cap == cap
    {
      hide Continuous, Tail;
      EmptyContinuous();
      stdout := new CappedStream(cap);
      stderr := new CappedStream(cap);
      running, exitCode, exitFired, stdoutCarry, stderrCarry, reports := true, None, false, "", "", [];
    }

    method OnStdout(chunk: string)
      requires Valid()
      modifies stdout
      ensures Valid() && Out() == Extend(old(Out()), chunk) && Err() == old(Err())
    {
      ExtendKeepsContinuous(Out(), chunk);
      stdout.Append(chunk);
    }

    method OnStderr(chunk: string)
      requires Valid()
      modifies stderr
      ensures Valid() && Err() == Extend(old(Err()), chunk) && Out() == old(Out())
    {
      ExtendKeepsContinuous(Err(), chunk);
      stderr.Append(chunk);
    }

    /** The callback runs once, with the first final exit code, however many end events arrive. */
    method Finalize()
      requires stdout != stderr && stdout.Valid() && stderr.Valid() && Continuous(Out()) && Continuous(Err())
      requires !running && |reports| <= 1 && (exitFired <==> |reports| == 1)
      modifies this`exitFired, this`reports
      ensures Valid() && exitFired
      ensures reports == if old(exitFired) then old(reports) else [exitCode]
    {
      if exitFired { return; }
      exitFired := true;
      reports := [exitCode];
    }

    method OnError(message: string)
      requires Valid()
      modifies this`running, this`exitCode, this`exitFired, this`reports, stderr
      ensures Valid() && !running && exitFired
      ensures Err() == Extend(old(Err()), message) && Out() == old(Out())
      ensures exitCode == if old(exitCode) == None then Some(1) else old(exitCode)
      ensures reports == if old(exitFired) then old(reports) else [exitCode]
    {
      OnStderr(message);
      running := false;
      if exitCode == None { exitCode := Some(1); }
      Finalize();
    }

    /** Without a code, a signal counts as failure. */
    method OnExit(code: Option<int>, signalled: bool)
      requires Valid()
      modifies this`running, this`exitCode, this`exitFired, this`reports
      ensures Valid() && !running && exitFired && Out() == old(Out()) && Err() == old(Err())
      ensures exitCode == if code.Some? then code else Some(if signalled then 1 else 0)
      ensures reports == if old(exitFired) then old(reports) else [exitCode]
    {
      running := false;
      exitCode := if code.Some? then code else Some(if signalled then 1 else 0);
      Finalize();
    }

    /** One incremental read of both streams; an invalid filter reads nothing. */
    method Poll(request: Request) returns (o: Output)
      requires Valid()
      modifies this`stdoutCarry, this`stderrCarry, stdout, stderr
      ensures Valid() && o.running == running && o.exitCode == exitCode
      ensures o.error <==> request.Invalid?
      ensures request.Invalid? ==>
        o.stdout == "" && o.stderr == "" && !o.truncated && Out() == old(Out()) && Err() == old(Err())
      ensures stdout.history == old(stdout.history) && stderr.history == old(stderr.history)
      ensures !request.Invalid? ==>
        stdout.returned == |stdout.history| && stderr.returned == |stderr.history|
      ensures request.Raw? ==>
        && o.stdout == old(stdout.history)[Later(old(stdout.returned), |old(stdout.history)| - stdout.cap)..]
        && o.stderr == old(stderr.history)[Later(old(stderr.returned), |old(stderr.history)| - stderr.cap)..]
        && stdoutCarry == "" && stderrCarry == ""
      ensures request.Raw? ==>
        && (Out(), o.stdout) == ReadRaw(old(Out()), stdout.cap)
        && (Err(), o.stderr) == ReadRaw(old(Err()), stderr.cap)
      ensures request.Lines? ==>
        && (Out(), o.stdout) == ReadFiltered(old(Out()), stdout.cap, running, request.re)
        && (Err(), o.stderr) == ReadFiltered(old(Err()), stderr.cap, running, request.re)
      ensures !request.Invalid? ==>
        (o.truncated <==>
          || |old(stdout.history)| - stdout.cap > old(stdout.returned)
          || |old(stderr.history)| - stderr.cap > old(stderr.returned))
    {
      hide Continuous, Unread, Truncated, Cut, FilterLines, Tail;
      if request.Invalid? {
        return Output("", "", running, exitCode, false, true);
      }
      ghost var out, err := Out(), Err();
      assert out.returned <= |out.history| && err.returned <= |err.history|;
      CarryIrrelevant(out, stdout.cap);
      CarryIrrelevant(err, stderr.cap);
      ReadKeepsContinuous(out, stdout.cap, running, if request.Lines? then request.re else All());
      ReadKeepsContinuous(err, stderr.cap, running, if request.Lines? then request.re else All());
      var outChunk, outTruncated := stdout.Read();
      var errChunk, errTruncated := stderr.Read();
      var text, errText := outChunk, errChunk;
      if request.Lines? {
        text, stdoutCarry := FilterStream(stdoutCarry, outChunk, outTruncated, request.re, running);
        errText, stderrCarry := FilterStream(stderrCarry, errChunk, errTruncated, request.re, running);
      } else {
        stdoutCarry, stderrCarry := "", "";
      }
      o := Output(text, errText, running, exitCode, outTruncated || errTruncated, false);
    }
  }

  /** The lines to show and the new held-back part, for what one read added to the old one. */
  method FilterStream(carry: string, chunk: string, truncated: bool, re: Filter, running: bool)
    returns (text: string, rest: string)
    ensures var cut := Cut((if truncated then "" else carry) + chunk, running);
      rest == cut.1 && text == FilterLines(cut.0, re)
  {
    hide FilterLines;
    var combined := (if truncated then "" else carry) + chunk;
    var nl := LastNewline(combined);
    var complete := if nl == -1 then "" else combined[..nl];
    rest := if nl == -1 then combined else combined[nl + 1..];
    if !running && rest != "" {
      complete := if complete == "" then rest else complete + "\n" + rest;
      rest := "";
    }
    text := FilterLines(complete, re);
  }
}
