/**
 * One output stream of a background process as its reader sees it: a capped buffer with a read
 * cursor, and reads that return only the lines a filter accepts.
 */
module Channel {
  import opened Text

  type Filter = string -> bool

  /** Everything produced so far, how much of it was handed to a reader, and the held-back partial line. */
  datatype Channel = Channel(history: string, returned: nat, carry: string)

  ghost predicate Continuous(ch: Channel) {
    && ch.returned <= |ch.history| && |ch.carry| <= ch.returned
    && ch.carry == ch.history[ch.returned - |ch.carry|..ch.returned]
    && '\n' !in ch.carry
  }

  const EMPTY := Channel("", 0, "")

  lemma EmptyContinuous()
    ensures Continuous(EMPTY)
  {}

  /** The last `cap` characters. */
  function Tail(s: string, cap: nat): string {
    if |s| <= cap then s else s[|s| - cap..]
  }

  function Extend(ch: Channel, s: string): Channel {
    ch.(history := ch.history + s)
  }

  /** Where the buffer starts in the whole output. */
  function RetainedStart(ch: Channel, cap: nat): nat {
    |ch.history| - |Tail(ch.history, cap)|
  }

  /** The cap dropped characters the reader had not seen. */
  predicate Truncated(ch: Channel, cap: nat) {
    RetainedStart(ch, cap) > ch.returned
  }

  /** What is produced, not yet returned and still retained. */
  function Unread(ch: Channel, cap: nat): string
    requires ch.returned <= |ch.history|
  {
    ch.history[if Truncated(ch, cap) then RetainedStart(ch, cap) else ch.returned..]
  }

  // ------------------------------------------------------------------------------ filtered reads

  function LastNewline(s: string): (n: int)
    ensures -1 <= n < |s|
    ensures n >= 0 ==> s[n] == '\n' && '\n' !in s[n + 1..]
    ensures n < 0 ==> '\n' !in s
  {
    if s == "" then -1
    else if s[|s| - 1] == '\n' then |s| - 1
    else
      var n := LastNewline(s[..|s| - 1]);
      assert s == s[..|s| - 1] + [s[|s| - 1]];
      assert n >= 0 ==> s[n + 1..] == s[..|s| - 1][n + 1..] + [s[|s| - 1]];
      n
  }

  function Keep(lines: seq<string>, re: Filter): seq<string> {
    if lines == [] then []
    else (if re(lines[0]) then [lines[0]] else []) + Keep(lines[1..], re)
  }

  /** The matching lines of a text of complete lines. */
  function FilterLines(text: string, re: Filter): string {
    if text == "" then "" else Join(Keep(Split(text, "\n"), re), "\n")
  }

  /** Complete lines to filter now, and the partial line to hold back. */
  function Cut(combined: string, running: bool): (string, string) {
    var nl := LastNewline(combined);
    var complete := if nl < 0 then "" else combined[..nl];
    var rest := if nl < 0 then combined else combined[nl + 1..];
    if !running && rest != "" then (if complete == "" then rest else complete + "\n" + rest, "")
    else (complete, rest)
  }

  function Combined(ch: Channel, cap: nat): string
    requires ch.returned <= |ch.history|
  {
    (if Truncated(ch, cap) then "" else ch.carry) + Unread(ch, cap)
  }

  function ReadFiltered(ch: Channel, cap: nat, running: bool, re: Filter): (Channel, string)
    requires ch.returned <= |ch.history|
  {
    var (complete, rest) := Cut(Combined(ch, cap), running);
    (Channel(ch.history, |ch.history|, rest), FilterLines(complete, re))
  }

  function ReadRaw(ch: Channel, cap: nat): (Channel, string)
    requires ch.returned <= |ch.history|
  {
    (Channel(ch.history, |ch.history|, ""), Unread(ch, cap))
  }

  // ------------------------------------------------------------------------------ never a splice

  /** What a filtered read puts together is one stretch of the output, up to its end. */
  lemma CombinedIsStretch(ch: Channel, cap: nat)
    requires Continuous(ch)
    ensures |Combined(ch, cap)| <= |ch.history|
    ensures Combined(ch, cap) == ch.history[|ch.history| - |Combined(ch, cap)|..]
  {
    if !Truncated(ch, cap) {
      assert ch.carry + ch.history[ch.returned..] == ch.history[ch.returned - |ch.carry|..];
    }
  }

  lemma CutParts(combined: string, running: bool)
    ensures var (complete, rest) := Cut(combined, running);
      && '\n' !in rest && |rest| <= |combined| && rest == combined[|combined| - |rest|..]
      && (complete == "" || Occurs(combined, complete))
      && (!running ==> rest == "")
  {
    var nl := LastNewline(combined);
    if nl >= 0 {
      assert At(combined, combined[..nl], 0);
      assert combined == combined[..nl] + "\n" + combined[nl + 1..];
      assert At(combined, combined, 0);
      assert At(combined, combined[nl + 1..], nl + 1);
    } else {
      assert At(combined, combined, 0);
    }
  }

  lemma ReadKeepsContinuous(ch: Channel, cap: nat, running: bool, re: Filter)
    requires Continuous(ch)
    ensures Continuous(ReadFiltered(ch, cap, running, re).0) && Continuous(ReadRaw(ch, cap).0)
  {
    hide Cut, Combined, FilterLines;
    var combined := Combined(ch, cap);
    CombinedIsStretch(ch, cap);
    CutParts(combined, running);
    var rest := Cut(combined, running).1;
    var h := ch.history;
    assert h[|h| - |combined|..][|combined| - |rest|..] == h[|h| - |rest|..];
  }

  lemma ExtendKeepsContinuous(ch: Channel, s: string)
    requires Continuous(ch)
    ensures Continuous(Extend(ch, s))
  {
    var h, a := ch.history, ch.returned - |ch.carry|;
    assert (h + s)[a..ch.returned] == h[a..ch.returned];
  }

  lemma {:induction false} KeepMembers(lines: seq<string>, re: Filter)
    ensures forall l :: l in Keep(lines, re) ==> l in lines && re(l)
    decreases |lines|
  {
    if lines != [] { KeepMembers(lines[1..], re); }
  }

  /** `kept` are exactly the accepted lines, in order: `at` lists where they stand. */
  ghost predicate KeptAt(lines: seq<string>, kept: seq<string>, re: Filter, at: seq<nat>) {
    && Chosen(at, |lines|, (i: nat) => i < |lines| && re(lines[i]))
    && |kept| == |at| && forall k :: 0 <= k < |at| ==> at[k] < |lines| && kept[k] == lines[at[k]]
  }

  lemma {:induction false} KeepIs(lines: seq<string>, re: Filter) returns (at: seq<nat>)
    ensures KeptAt(lines, Keep(lines, re), re, at)
    decreases |lines|
  {
    if lines == [] {
      at := [];
    } else {
      hide KeptAt;
      var later := KeepIs(lines[1..], re);
      at := KeptFront(lines, Keep(lines[1..], re), re, later);
    }
  }

  lemma KeptFront(lines: seq<string>, kept: seq<string>, re: Filter, later: seq<nat>) returns (at: seq<nat>)
    requires lines != [] && KeptAt(lines[1..], kept, re, later)
    ensures KeptAt(lines, (if re(lines[0]) then [lines[0]] else []) + kept, re, at)
  {
    var rest := lines[1..];
    ChosenLater(later, |rest|, (i: nat) => i < |rest| && re(rest[i]), (i: nat) => i < |lines| && re(lines[i]));
    hide Chosen;
    at := (if re(lines[0]) then [0] else []) + Shifted(later);
  }

  /** The lines a filtered read returns. */
  function DeliveredLines(complete: string, re: Filter): seq<string> {
    if complete == "" then [] else Keep(Split(complete, "\n"), re)
  }

  /**
   * Whatever was evicted and whatever was read before, every line of a filtered read matches, holds
   * no newline, and is one contiguous stretch of the real output.
   */
  lemma LinesAreNeverSpliced(ch: Channel, cap: nat, running: bool, re: Filter, line: string)
    requires Continuous(ch)
    requires line in DeliveredLines(Cut(Combined(ch, cap), running).0, re)
    ensures re(line) && '\n' !in line && Occurs(ch.history, line)
  {
    hide Cut, Combined, Occurs;
    var combined := Combined(ch, cap);
    var complete := Cut(combined, running).0;
    KeepMembers(Split(complete, "\n"), re);
    hide Keep;
    LinesHoldNoNewline(complete);
    SplitPiecesOccur(complete, "\n");
    CutParts(combined, running);
    OccursTrans(combined, complete, line);
    CombinedIsStretch(ch, cap);
    SuffixOccurs(ch.history, combined);
    OccursTrans(ch.history, combined, line);
  }

  lemma SuffixOccurs(s: string, t: string)
    requires |t| <= |s| && t == s[|s| - |t|..]
    ensures Occurs(s, t)
  {
    assert At(s, t, |s| - |t|);
  }

  // -------------------------------------------------------------- the non-empty matching lines

  /** The non-empty lines of `s` that the filter accepts, in order. */
  function Matching(s: string, re: Filter): seq<string> {
    Keep(Split(s, "\n"), NonEmpty(re))
  }

  function All(): Filter { l => true }

  function NonEmpty(re: Filter): Filter { l => l != "" && re(l) }

  lemma {:induction false} KeepConcat(a: seq<string>, b: seq<string>, re: Filter)
    ensures Keep(a + b, re) == Keep(a, re) + Keep(b, re)
    decreases |a|
  {
    if a == [] {
      assert a + b == b;
    } else {
      KeepConcat(a[1..], b, re);
      assert (a + b)[1..] == a[1..] + b && (a + b)[0] == a[0];
      var first := if re(a[0]) then [a[0]] else [];
      assert Keep(a, re) == first + Keep(a[1..], re);
      assert Keep(a + b, re) == first + Keep(a[1..] + b, re);
      hide Keep;
    }
  }

  lemma MatchingConcat(a: string, b: string, re: Filter)
    ensures Matching(a + "\n" + b, re) == Matching(a, re) + Matching(b, re)
  {
    hide Split, Keep;
    LinesConcat(a, b);
    KeepConcat(Split(a, "\n"), Split(b, "\n"), NonEmpty(re));
  }

  lemma MatchingEmpty(re: Filter)
    ensures Matching("", re) == []
  {
    assert Split("", "\n") == [""];
    assert Keep([""], NonEmpty(re)) == Keep([], NonEmpty(re));
  }

  /** Nothing yet, or only complete lines. */
  predicate Boundary(s: string) {
    s == "" || s[|s| - 1] == '\n'
  }

  lemma MatchingBehindBoundary(x: string, z: string, re: Filter)
    requires Boundary(x)
    ensures Matching(x + z, re) == Matching(x, re) + Matching(z, re)
  {
    hide Matching;
    MatchingEmpty(re);
    if x == "" {
      assert x + z == z;
    } else {
      var y := x[..|x| - 1];
      assert x == y + "\n" + "" && x + z == y + "\n" + z;
      MatchingConcat(y, "", re);
      MatchingConcat(y, z, re);
    }
  }

  lemma {:induction false} KeepTwice(lines: seq<string>, re: Filter)
    ensures Keep(Keep(lines, re), NonEmpty(All())) == Keep(lines, NonEmpty(re))
    decreases |lines|
  {
    if lines != [] {
      KeepTwice(lines[1..], re);
      var first := if re(lines[0]) then [lines[0]] else [];
      KeepConcat(first, Keep(lines[1..], re), NonEmpty(All()));
      assert Keep([], NonEmpty(All())) == [];
      assert re(lines[0]) ==> Keep(first, NonEmpty(All())) == if lines[0] != "" then [lines[0]] else [];
    }
  }

  /** Read as text, the output of a filtered read has exactly the matching non-empty lines. */
  lemma FilterLinesMatching(complete: string, re: Filter)
    ensures Matching(FilterLines(complete, re), All()) == Matching(complete, re)
  {
    MatchingEmpty(All());
    MatchingEmpty(re);
    if complete != "" {
      var lines := Split(complete, "\n");
      var kept := Keep(lines, re);
      LinesHoldNoNewline(complete);
      KeepMembers(lines, re);
      KeepTwice(lines, re);
      hide Split, Keep;
      if kept != [] {
        SplitJoin(kept, '\n');
      } else {
        assert Join(kept, "\n") == "";
        assert Matching("", All()) == [];
        KeepNothing(NonEmpty(All()));
      }
    }
  }

  lemma KeepNothing(re: Filter)
    ensures Keep([], re) == []
  {}

  /** Cutting loses no matching line: those of the complete part, then those of what is held back. */
  lemma CutMatching(combined: string, running: bool, re: Filter)
    ensures var (complete, rest) := Cut(combined, running);
      Matching(combined, re) == Matching(complete, re) + Matching(rest, re)
  {
    hide Matching;
    MatchingEmpty(re);
    var nl := LastNewline(combined);
    if nl >= 0 {
      assert combined == combined[..nl] + "\n" + combined[nl + 1..];
      MatchingConcat(combined[..nl], combined[nl + 1..], re);
    }
  }
}
