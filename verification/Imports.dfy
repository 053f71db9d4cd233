/**
 * Expanding `@path` imports of governance files: fenced blocks and code spans are left alone, every
 * file is inlined at most once, and depth and total size are bounded on any graph of files.
 */
module Imports {
  import opened Options
  import opened Text

  // ------------------------------------------------------------------------------------ the text

  /** A path as written that follows `@`, with its place in the text. */
  datatype Ref = Ref(index: nat, lead: string, path: string)

  /** `@` and a path at `i`, at the very start or behind one white space character. */
  function RefAt(text: string, i: nat): (r: Option<Ref>)
    requires i <= |text|
    ensures r.Some? ==> r.value.index == i && r.value.path != "" && |r.value.lead| <= 1
    ensures r.Some? ==> i + |r.value.lead| + 1 + |r.value.path| <= |text|
    ensures r.Some? ==> text[i..i + |Full(r.value)|] == Full(r.value)
  {
    hide Word, IsSpace;
    if i == 0 && |text| > 1 && text[0] == '@' && !IsSpace(text[1]) then
      var path := Word(text[1..]);
      assert text[0..1 + |path|] == "" + "@" + path;
      Some(Ref(0, "", path))
    else if i + 2 < |text| && IsSpace(text[i]) && text[i + 1] == '@' && !IsSpace(text[i + 2]) then
      var path := Word(text[i + 2..]);
      PathBehind(text, i, path);
      Some(Ref(i, [text[i]], path))
    else None
  }

  lemma PathBehind(text: string, i: nat, path: string)
    requires i + 2 <= |text| && text[i + 1] == '@' && path <= text[i + 2..]
    ensures text[i..i + 2 + |path|] == [text[i]] + "@" + path
  {
    var there, full := text[i..i + 2 + |path|], [text[i]] + "@" + path;
    forall k | 2 <= k < |full| ensures there[k] == full[k] {
      assert text[i + 2..][k - 2] == path[k - 2];
    }
  }

  /** The run of other than white space characters at the front. */
  function Word(s: string): (w: string)
    ensures w <= s
    ensures s != "" && !IsSpace(s[0]) ==> w != ""
  {
    if s == "" || IsSpace(s[0]) then "" else [s[0]] + Word(s[1..])
  }

  function Full(r: Ref): string { r.lead + "@" + r.path }

  /** The leftmost reference from `i` on. */
  function NextRef(text: string, i: nat): (r: Option<Ref>)
    requires i <= |text|
    ensures r.Some? ==> i <= r.value.index <= |text| && RefAt(text, r.value.index) == r
    decreases |text| - i
  {
    if RefAt(text, i).Some? then RefAt(text, i)
    else if i == |text| then None
    else NextRef(text, i + 1)
  }

  /** A path without the punctuation of the sentence around it. */
  function StripPunctuation(path: string): (p: string)
    ensures p <= path
  {
    if path != "" && path[|path| - 1] in ".,;:!?" then StripPunctuation(path[..|path| - 1]) else path
  }

  function Backticks(s: string): (n: nat)
    ensures n <= |s|
  {
    if s != "" && s[0] == '`' then 1 + Backticks(s[1..]) else 0
  }

  function UntilBacktick(s: string): (n: nat)
    ensures n <= |s| && (n < |s| ==> s[n] == '`')
  {
    if s == "" || s[0] == '`' then 0 else 1 + UntilBacktick(s[1..])
  }

  /** Length of the code span at the front of `s`, or 0: a run of backticks, other text, a run of backticks. */
  function CodeSpan(s: string): (n: nat)
    requires s != "" && s[0] == '`'
    ensures n <= |s|
  {
    var open := Backticks(s);
    var inner := UntilBacktick(s[open..]);
    if open + inner < |s| then open + inner + Backticks(s[open + inner..])
    else if open > 1 then open
    else 0
  }

  /** A line cut at its code spans. */
  function Segments(line: string): (parts: seq<string>)
    ensures Concat(parts) == line
    decreases |line|
  {
    hide UntilBacktick, CodeSpan, Concat;
    var i := UntilBacktick(line);
    if i == |line| || CodeSpan(line[i..]) == 0 then
      ConcatOne(line);
      [line]
    else
      var end := i + CodeSpan(line[i..]);
      ConcatTwo(line[..i], line[i..end], Segments(line[end..]));
      assert line == line[..i] + (line[i..end] + line[end..]);
      [line[..i], line[i..end]] + Segments(line[end..])
  }

  lemma ConcatOne(part: string)
    ensures Concat([part]) == part
  {}

  lemma ConcatTwo(a: string, b: string, rest: seq<string>)
    ensures Concat([a, b] + rest) == a + (b + Concat(rest))
  {
    var parts := [a, b] + rest;
    assert parts[1..][1..] == rest;
  }

  function Concat(parts: seq<string>): string {
    if parts == [] then "" else parts[0] + Concat(parts[1..])
  }

  /** The marker character of a fence at the front of a line. */
  function FenceMarker(line: string): Option<char> {
    var t := TrimStart(line);
    if "```" <= t then Some('`') else if "~~~" <= t then Some('~') else None
  }

  // --------------------------------------------------------------------------------- the expansion

  /** Where a path leads from a directory (a real path inside the root), what is there, and its directory. */
  datatype Files = Files(locate: (string, string) -> Option<string>, read: string -> Option<string>,
                         dir: string -> string, bytes: string -> nat)

  /** One inlined file: its real path, its size, and the levels that were left when it was inlined. */
  datatype Inlined = Inlined(file: string, size: nat, depth: nat)

  /** What all branches share; `log` records the inlined files in order. */
  datatype State = State(visited: set<string>, budget: nat, log: seq<Inlined>)

  function Expand(f: Files, contents: string, base: string, depth: nat, st: State): (string, State)
    decreases depth, 6, 0
  {
    var (lines, st') := ExpandLines(f, Split(contents, "\n"), None, base, depth, st);
    (Join(lines, "\n"), st')
  }

  function ExpandLines(
      f: Files, lines: seq<string>, fence: Option<char>, base: string, depth: nat, st: State): (seq<string>, State)
    decreases depth, 5, |lines|
  {
    if lines == [] then ([], st)
    else
      var line, marker := lines[0], FenceMarker(lines[0]);
      if marker.Some? && (fence == None || fence == marker) then
        var (rest, st') := ExpandLines(f, lines[1..], if fence == None then marker else None, base, depth, st);
        ([line] + rest, st')
      else if fence.Some? then
        var (rest, st') := ExpandLines(f, lines[1..], fence, base, depth, st);
        ([line] + rest, st')
      else
        var (first, st1) := ExpandParts(f, Segments(line), base, depth, st);
        var (rest, st2) := ExpandLines(f, lines[1..], fence, base, depth, st1);
        ([first] + rest, st2)
  }

  function ExpandParts(f: Files, parts: seq<string>, base: string, depth: nat, st: State): (string, State)
    decreases depth, 4, |parts|
  {
    if parts == [] then ("", st)
    else
      var (first, st1) :=
        if parts[0] != "" && parts[0][0] == '`' then (parts[0], st)
        else ExpandSegment(f, parts[0], 0, 0, base, depth, st);
      var (rest, st2) := ExpandParts(f, parts[1..], base, depth, st1);
      (first + rest, st2)
  }

  /** From `from` on, with everything in front of `last` already emitted. */
  function ExpandSegment(
      f: Files, text: string, from: nat, last: nat, base: string, depth: nat, st: State): (string, State)
    requires last <= from <= |text|
    decreases depth, 3, |text| - from
  {
    match NextRef(text, from)
    case None => (text[last..], st)
    case Some(r) =>
      var (piece, st1) := ExpandRef(f, r, base, depth, st);
      var (rest, st2) := ExpandSegment(f, text, r.index + |Full(r)|, RefEnd(r), base, depth, st1);
      (text[last..r.index] + piece + rest, st2)
  }

  lemma SegmentStep(f: Files, text: string, from: nat, last: nat, base: string, depth: nat, st: State)
    requires last <= from <= |text|
    ensures NextRef(text, from) == None ==> ExpandSegment(f, text, from, last, base, depth, st) == (text[last..], st)
    ensures NextRef(text, from).Some? ==>
      var r := NextRef(text, from).value;
      var one, end := ExpandRef(f, r, base, depth, st), r.index + |Full(r)|;
      && last <= r.index < end <= |text|
      && var rest := ExpandSegment(f, text, end, RefEnd(r), base, depth, one.1);
        ExpandSegment(f, text, from, last, base, depth, st) == (text[last..r.index] + one.0 + rest.0, rest.1)
  {
    hide RefAt, StripPunctuation, ExpandRef;
    if NextRef(text, from).Some? { RefText(text, NextRef(text, from).value); }
  }

  /** Behind the path without its trailing punctuation. */
  function RefEnd(r: Ref): (n: nat)
    ensures n <= r.index + |Full(r)|
  {
    r.index + |r.lead| + 1 + |StripPunctuation(r.path)|
  }

  function ExpandRef(f: Files, r: Ref, base: string, depth: nat, st: State): (string, State)
    decreases depth, 2, 0
  {
    var path := StripPunctuation(r.path);
    if path == "" || path[0] == '@' then (Full(r), st)
    else
      match Inline(f, path, base, depth, st)
      case (None, st') => (Full(r), st')
      case (Some(text), st') => (r.lead + text, st')
  }

  function Inline(f: Files, path: string, base: string, depth: nat, st: State): (Option<string>, State)
    decreases depth, 1, 0
  {
    if depth == 0 then (None, st)
    else
      match f.locate(path, base)
      case None => (None, st)
      case Some(file) =>
        if file in st.visited then (None, st)
        else
          match f.read(file)
          case None => (None, st)
          case Some(contents) =>
            var marked := st.(visited := st.visited + {file});
            var size := f.bytes(contents);
            if size > st.budget then (None, marked)
            else
              var entered := marked.(budget := st.budget - size, log := st.log + [Inlined(file, size, depth)]);
              var (text, st') := Expand(f, contents, f.dir(file), depth - 1, entered);
              (Some(text), st')
  }

  // ----------------------------------------------------------------------------- what is bounded

  function Sizes(log: seq<Inlined>): nat {
    if log == [] then 0 else Sizes(log[..|log| - 1]) + log[|log| - 1].size
  }

  /** Between two states of one expansion with `depth` levels left. */
  ghost predicate Grows(a: State, b: State, depth: nat) {
    && a.visited <= b.visited && a.log <= b.log
    && a.budget + Sizes(a.log) == b.budget + Sizes(b.log)
    && (forall i :: |a.log| <= i < |b.log| ==>
         b.log[i].file !in a.visited && b.log[i].file in b.visited && 1 <= b.log[i].depth <= depth)
    && forall i, j :: |a.log| <= i < j < |b.log| ==> b.log[i].file != b.log[j].file
  }

  lemma GrowsRefl(a: State, depth: nat)
    ensures Grows(a, a, depth)
  {}

  lemma GrowsTrans(a: State, b: State, c: State, d: nat, depth: nat)
    requires Grows(a, b, depth) && Grows(b, c, d) && d <= depth
    ensures Grows(a, c, depth)
  {
    hide Sizes;
    forall i | |a.log| <= i < |c.log|
      ensures c.log[i].file !in a.visited && c.log[i].file in c.visited && 1 <= c.log[i].depth <= depth
    {
      if i < |b.log| { assert c.log[i] == b.log[i]; }
    }
    forall i, j | |a.log| <= i < j < |c.log| ensures c.log[i].file != c.log[j].file {
      if i < |b.log| { assert c.log[i] == b.log[i]; }
      if j < |b.log| { assert c.log[j] == b.log[j]; }
    }
  }

  lemma Enter(st: State, file: string, size: nat, depth: nat)
    requires file !in st.visited && size <= st.budget && depth > 0
    ensures Grows(st, State(st.visited + {file}, st.budget - size, st.log + [Inlined(file, size, depth)]), depth)
  {
    assert (st.log + [Inlined(file, size, depth)])[..|st.log|] == st.log;
  }

  lemma {:induction false} ExpandGrows(f: Files, contents: string, base: string, depth: nat, st: State)
    ensures Grows(st, Expand(f, contents, base, depth, st).1, depth)
    decreases depth, 6, 0
  {
    hide Grows, Split, ExpandLines;
    LinesGrow(f, Split(contents, "\n"), None, base, depth, st);
  }

  lemma {:induction false} LinesGrow(
      f: Files, lines: seq<string>, fence: Option<char>, base: string, depth: nat, st: State)
    ensures Grows(st, ExpandLines(f, lines, fence, base, depth, st).1, depth)
    decreases depth, 5, |lines|
  {
    hide Grows, FenceMarker, Segments, ExpandParts;
    if lines == [] {
      GrowsRefl(st, depth);
    } else {
      var marker := FenceMarker(lines[0]);
      if marker.Some? && (fence == None || fence == marker) {
        LinesGrow(f, lines[1..], if fence == None then marker else None, base, depth, st);
      } else if fence.Some? {
        LinesGrow(f, lines[1..], fence, base, depth, st);
      } else {
        var st1 := ExpandParts(f, Segments(lines[0]), base, depth, st).1;
        PartsGrow(f, Segments(lines[0]), base, depth, st);
        LinesGrow(f, lines[1..], fence, base, depth, st1);
        GrowsTrans(st, st1, ExpandLines(f, lines[1..], fence, base, depth, st1).1, depth, depth);
      }
    }
  }

  lemma {:induction false} PartsGrow(f: Files, parts: seq<string>, base: string, depth: nat, st: State)
    ensures Grows(st, ExpandParts(f, parts, base, depth, st).1, depth)
    decreases depth, 4, |parts|
  {
    hide Grows, ExpandSegment;
    GrowsRefl(st, depth);
    if parts != [] {
      var st1 := st;
      if parts[0] == "" || parts[0][0] != '`' {
        st1 := ExpandSegment(f, parts[0], 0, 0, base, depth, st).1;
        SegmentGrows(f, parts[0], 0, 0, base, depth, st);
      }
      PartsGrow(f, parts[1..], base, depth, st1);
      GrowsTrans(st, st1, ExpandParts(f, parts[1..], base, depth, st1).1, depth, depth);
    }
  }

  lemma {:induction false} SegmentGrows(
      f: Files, text: string, from: nat, last: nat, base: string, depth: nat, st: State)
    requires last <= from <= |text|
    ensures Grows(st, ExpandSegment(f, text, from, last, base, depth, st).1, depth)
    decreases depth, 3, |text| - from
  {
    hide Grows, RefAt, ExpandRef, StripPunctuation;
    match NextRef(text, from) {
      case None => GrowsRefl(st, depth);
      case Some(r) =>
        var st1 := ExpandRef(f, r, base, depth, st).1;
        RefGrows(f, r, base, depth, st);
        SegmentGrows(f, text, r.index + |Full(r)|, RefEnd(r), base, depth, st1);
        GrowsTrans(st, st1, ExpandSegment(f, text, r.index + |Full(r)|, RefEnd(r), base, depth, st1).1, depth, depth);
    }
  }

  lemma {:induction false} RefGrows(f: Files, r: Ref, base: string, depth: nat, st: State)
    ensures Grows(st, ExpandRef(f, r, base, depth, st).1, depth)
    decreases depth, 2, 0
  {
    hide Grows, Inline, StripPunctuation;
    GrowsRefl(st, depth);
    var path := StripPunctuation(r.path);
    if path != "" && path[0] != '@' { InlineGrows(f, path, base, depth, st); }
  }

  lemma {:induction false} InlineGrows(f: Files, path: string, base: string, depth: nat, st: State)
    ensures Grows(st, Inline(f, path, base, depth, st).1, depth)
    decreases depth, 1, 0
  {
    hide Expand;
    GrowsRefl(st, depth);
    if depth > 0 && f.locate(path, base).Some? {
      var file := f.locate(path, base).value;
      if file !in st.visited && f.read(file).Some? {
        var contents := f.read(file).value;
        var size := f.bytes(contents);
        if size <= st.budget {
          var entered := State(st.visited + {file}, st.budget - size, st.log + [Inlined(file, size, depth)]);
          Enter(st, file, size, depth);
          hide Grows;
          ExpandGrows(f, contents, f.dir(file), depth - 1, entered);
          GrowsTrans(st, entered, Expand(f, contents, f.dir(file), depth - 1, entered).1, depth - 1, depth);
        }
      }
    }
  }

  function ExpandImports(
      f: Files, contents: string, base: string, maxDepth: nat, maxBytes: nat, source: Option<string>)
    : (string, State) {
    var visited := if source.Some? then {source.value} else {};
    Expand(f, contents, base, maxDepth, State(visited, maxBytes, []))
  }

  /**
   * On every graph of files: each real file is inlined at most once, the source file never, no file
   * deeper than the limit, and the inlined bytes stay within the budget.
   */
  lemma ExpansionBounded(f: Files, contents: string, base: string, maxDepth: nat, maxBytes: nat, source: Option<string>)
    ensures var log := ExpandImports(f, contents, base, maxDepth, maxBytes, source).1.log;
      && (forall i, j :: 0 <= i < j < |log| ==> log[i].file != log[j].file)
      && (forall i :: 0 <= i < |log| ==> 1 <= log[i].depth <= maxDepth && source != Some(log[i].file))
      && Sizes(log) <= maxBytes
  {
    hide Expand;
    var visited := if source.Some? then {source.value} else {};
    ExpandGrows(f, contents, base, maxDepth, State(visited, maxBytes, []));
    assert Sizes([]) == 0;
  }

  // ---------------------------------------------------------------------- what the budget protects

  /** No text has more characters than bytes. */
  ghost predicate BytesCover(f: Files) {
    forall text :: |text| <= f.bytes(text)
  }

  /** Bytes inlined between two states. */
  function Spent(a: State, b: State): int { a.budget - b.budget }

  lemma {:induction false} ExpandOutput(f: Files, contents: string, base: string, depth: nat, st: State)
    requires BytesCover(f)
    ensures var (out, st') := Expand(f, contents, base, depth, st); |out| <= 2 * |contents| + 2 * Spent(st, st')
    decreases depth, 6, 0
  {
    hide Split, Join, ExpandLines, BytesCover;
    var lines := Split(contents, "\n");
    LinesOutput(f, lines, None, base, depth, st);
    JoinSplit(contents, "\n");
    JoinLength(lines);
    JoinLength(ExpandLines(f, lines, None, base, depth, st).0);
  }

  lemma {:induction false} LinesOutput(
      f: Files, lines: seq<string>, fence: Option<char>, base: string, depth: nat, st: State)
    requires BytesCover(f)
    ensures var (out, st') := ExpandLines(f, lines, fence, base, depth, st);
      |out| == |lines| && Total(out) <= 2 * Total(lines) + 2 * Spent(st, st')
    decreases depth, 5, |lines|
  {
    hide FenceMarker, Segments, ExpandParts, BytesCover;
    if lines != [] {
      var marker := FenceMarker(lines[0]);
      if marker.Some? && (fence == None || fence == marker) {
        LinesOutput(f, lines[1..], if fence == None then marker else None, base, depth, st);
      } else if fence.Some? {
        LinesOutput(f, lines[1..], fence, base, depth, st);
      } else {
        var parts := Segments(lines[0]);
        PartsOutput(f, parts, base, depth, st);
        LinesOutput(f, lines[1..], fence, base, depth, ExpandParts(f, parts, base, depth, st).1);
      }
    }
  }

  lemma {:induction false} PartsOutput(f: Files, parts: seq<string>, base: string, depth: nat, st: State)
    requires BytesCover(f)
    ensures var (out, st') := ExpandParts(f, parts, base, depth, st);
      |out| <= 2 * |Concat(parts)| + 2 * Spent(st, st')
    decreases depth, 4, |parts|
  {
    hide ExpandSegment, BytesCover;
    if parts != [] {
      var st1 := st;
      if parts[0] == "" || parts[0][0] != '`' {
        SegmentOutput(f, parts[0], 0, 0, base, depth, st);
        st1 := ExpandSegment(f, parts[0], 0, 0, base, depth, st).1;
      }
      PartsOutput(f, parts[1..], base, depth, st1);
    }
  }

  lemma {:induction false} SegmentOutput(
      f: Files, text: string, from: nat, last: nat, base: string, depth: nat, st: State)
    requires last <= from <= |text| && BytesCover(f)
    ensures var (out, st') := ExpandSegment(f, text, from, last, base, depth, st);
      |out| <= (from - last) + 2 * (|text| - from) + 2 * Spent(st, st')
    decreases depth, 3, |text| - from
  {
    hide NextRef, RefAt, StripPunctuation, ExpandSegment, ExpandRef, BytesCover;
    SegmentStep(f, text, from, last, base, depth, st);
    match NextRef(text, from) {
      case None =>
      case Some(r) =>
        RefOutput(f, r, base, depth, st);
        var st1 := ExpandRef(f, r, base, depth, st).1;
        SegmentOutput(f, text, r.index + |Full(r)|, RefEnd(r), base, depth, st1);
    }
  }

  lemma {:induction false} RefOutput(f: Files, r: Ref, base: string, depth: nat, st: State)
    requires BytesCover(f)
    ensures var (out, st') := ExpandRef(f, r, base, depth, st); |out| <= |Full(r)| + 2 * Spent(st, st')
    decreases depth, 2, 0
  {
    hide Inline, StripPunctuation, BytesCover;
    var path := StripPunctuation(r.path);
    if path != "" && path[0] != '@' { InlineOutput(f, path, base, depth, st); }
  }

  lemma {:induction false} InlineOutput(f: Files, path: string, base: string, depth: nat, st: State)
    requires BytesCover(f)
    ensures var (out, st') := Inline(f, path, base, depth, st);
      Spent(st, st') >= 0 && (out.Some? ==> |out.value| <= 2 * Spent(st, st'))
    decreases depth, 1, 0
  {
    hide Expand, BytesCover;
    if depth > 0 && f.locate(path, base).Some? {
      var file := f.locate(path, base).value;
      if file !in st.visited && f.read(file).Some? {
        var contents := f.read(file).value;
        var size := f.bytes(contents);
        if size <= st.budget {
          var entered := State(st.visited + {file}, st.budget - size, st.log + [Inlined(file, size, depth)]);
          CoversOne(f, contents);
          ExpandOutput(f, contents, f.dir(file), depth - 1, entered);
          ExpandSpent(f, contents, f.dir(file), depth - 1, entered);
        }
      }
    }
  }

  lemma CoversOne(f: Files, text: string)
    requires BytesCover(f)
    ensures |text| <= f.bytes(text)
  {}

  lemma ExpandSpent(f: Files, contents: string, base: string, depth: nat, st: State)
    ensures Spent(st, Expand(f, contents, base, depth, st).1) >= 0
  {
    hide Expand, Grows;
    ExpandGrows(f, contents, base, depth, st);
    SpentGrows(st, Expand(f, contents, base, depth, st).1, depth);
  }

  lemma SpentGrows(a: State, b: State, depth: nat)
    requires Grows(a, b, depth)
    ensures Spent(a, b) >= 0
  {
    assert b.log[..|a.log|] == a.log;
    SizesMonotone(b.log, |a.log|);
  }

  lemma {:induction false} SizesMonotone(log: seq<Inlined>, n: nat)
    requires n <= |log|
    ensures Sizes(log[..n]) <= Sizes(log)
    decreases |log|
  {
    if n < |log| {
      SizesMonotone(log[..|log| - 1], n);
      assert log[..|log| - 1][..n] == log[..n];
    } else {
      assert log[..n] == log;
    }
  }

  /** On every graph of files, the emitted text is at most twice as long as the entry file and the byte budget. */
  lemma OutputBounded(f: Files, contents: string, base: string, maxDepth: nat, maxBytes: nat, source: Option<string>)
    requires BytesCover(f)
    ensures |ExpandImports(f, contents, base, maxDepth, maxBytes, source).0| <= 2 * (|contents| + maxBytes)
  {
    hide Expand, BytesCover;
    ExpandOutput(f, contents, base, maxDepth, State(if source.Some? then {source.value} else {}, maxBytes, []));
  }

  // --------------------------------------------------------------------- text that resolves to nothing

  /** No path leads anywhere. */
  ghost predicate NothingThere(f: Files) {
    forall path, base :: f.locate(path, base) == None
  }

  /** Punctuation behind the paths of a segment, from `from` on. */
  function Punctuation(text: string, from: nat): nat
    requires from <= |text|
    decreases |text| - from
  {
    match NextRef(text, from)
    case None => 0
    case Some(r) => |r.path| - |StripPunctuation(r.path)| + Punctuation(text, r.index + |Full(r)|)
  }

  lemma UnresolvedRef(f: Files, r: Ref, base: string, depth: nat, st: State)
    requires NothingThere(f)
    ensures ExpandRef(f, r, base, depth, st) == (Full(r), st)
  {
    hide StripPunctuation;
    var path := StripPunctuation(r.path);
    assert Inline(f, path, base, depth, st) == (None, st) by { assert f.locate(path, base) == None; }
  }

  lemma {:induction false} UnresolvedSegment(
      f: Files, text: string, from: nat, last: nat, base: string, depth: nat, st: State)
    requires last <= from <= |text| && NothingThere(f)
    ensures ExpandSegment(f, text, from, last, base, depth, st).1 == st
    ensures var out := ExpandSegment(f, text, from, last, base, depth, st).0;
      && |out| == |text| - last + Punctuation(text, from)
      && (Punctuation(text, from) == 0 ==> out == text[last..])
    decreases |text| - from
  {
    hide RefAt, NextRef, StripPunctuation, ExpandSegment, ExpandRef, Punctuation, Full, RefEnd, NothingThere;
    SegmentStep(f, text, from, last, base, depth, st);
    PunctuationStep(text, from);
    match NextRef(text, from) {
      case None =>
      case Some(r) =>
        UnresolvedRef(f, r, base, depth, st);
        var end := r.index + |Full(r)|;
        UnresolvedSegment(f, text, end, RefEnd(r), base, depth, st);
        RefText(text, r);
        if Punctuation(text, from) == 0 {
          assert text[last..] == text[last..r.index] + text[r.index..end] + text[end..];
        }
    }
  }

  lemma PunctuationStep(text: string, from: nat)
    requires from <= |text|
    ensures NextRef(text, from) == None ==> Punctuation(text, from) == 0
    ensures NextRef(text, from).Some? ==>
      var r := NextRef(text, from).value;
      var end := r.index + |Full(r)|;
      end <= |text| && Punctuation(text, from) == end - RefEnd(r) + Punctuation(text, end)
  {
    hide RefAt, StripPunctuation;
    if NextRef(text, from).Some? { RefText(text, NextRef(text, from).value); }
  }

  lemma RefText(text: string, r: Ref)
    requires r.index <= |text| && RefAt(text, r.index) == Some(r)
    ensures r.index + |Full(r)| <= |text| && text[r.index..r.index + |Full(r)|] == Full(r)
  {}

  /** Punctuation that the expansion of a whole text would repeat. */
  function PunctuationInParts(parts: seq<string>): nat {
    if parts == [] then 0
    else
      (if parts[0] != "" && parts[0][0] == '`' then 0 else Punctuation(parts[0], 0)) + PunctuationInParts(parts[1..])
  }

  function PunctuationInLines(lines: seq<string>, fence: Option<char>): nat {
    if lines == [] then 0
    else
      var marker := FenceMarker(lines[0]);
      if marker.Some? && (fence == None || fence == marker) then
        PunctuationInLines(lines[1..], if fence == None then marker else None)
      else if fence.Some? then PunctuationInLines(lines[1..], fence)
      else PunctuationInParts(Segments(lines[0])) + PunctuationInLines(lines[1..], fence)
  }

  lemma {:induction false} UnresolvedParts(f: Files, parts: seq<string>, base: string, depth: nat, st: State)
    requires NothingThere(f)
    ensures ExpandParts(f, parts, base, depth, st).1 == st
    ensures var out := ExpandParts(f, parts, base, depth, st).0;
      && |out| == |Concat(parts)| + PunctuationInParts(parts)
      && (PunctuationInParts(parts) == 0 ==> out == Concat(parts))
  {
    hide ExpandSegment, Punctuation, NothingThere;
    if parts != [] {
      UnresolvedParts(f, parts[1..], base, depth, st);
      if parts[0] == "" || parts[0][0] != '`' {
        UnresolvedSegment(f, parts[0], 0, 0, base, depth, st);
        assert parts[0][0..] == parts[0];
      }
    }
  }

  function Total(lines: seq<string>): nat {
    if lines == [] then 0 else |lines[0]| + Total(lines[1..])
  }

  lemma {:induction false} UnresolvedLines(
      f: Files, lines: seq<string>, fence: Option<char>, base: string, depth: nat, st: State)
    requires NothingThere(f)
    ensures var out := ExpandLines(f, lines, fence, base, depth, st).0;
      && |out| == |lines| && Total(out) == Total(lines) + PunctuationInLines(lines, fence)
      && (PunctuationInLines(lines, fence) == 0 ==> out == lines)
  {
    hide ExpandParts, PunctuationInParts, FenceMarker, NothingThere;
    if lines != [] {
      var marker := FenceMarker(lines[0]);
      if marker.Some? && (fence == None || fence == marker) {
        UnresolvedLines(f, lines[1..], if fence == None then marker else None, base, depth, st);
      } else if fence.Some? {
        UnresolvedLines(f, lines[1..], fence, base, depth, st);
      } else {
        UnresolvedParts(f, Segments(lines[0]), base, depth, st);
        UnresolvedLines(f, lines[1..], fence, base, depth, st);
      }
    }
  }

  lemma {:induction false} JoinLength(lines: seq<string>)
    ensures lines != [] ==> |Join(lines, "\n")| == Total(lines) + |lines| - 1
  {
    if |lines| > 1 { JoinLength(lines[1..]); }
  }

  /**
   * A file whose paths lead nowhere is emitted unchanged if and only if no path outside its code has
   * trailing punctuation; otherwise the punctuation appears twice.
   */
  lemma UnresolvedUnchangedIff(f: Files, contents: string, base: string, depth: nat, st: State)
    requires NothingThere(f)
    ensures Expand(f, contents, base, depth, st).0 == contents <==>
      PunctuationInLines(Split(contents, "\n"), None) == 0
  {
    hide ExpandLines, PunctuationInLines, Split, NothingThere;
    var lines := Split(contents, "\n");
    var out := ExpandLines(f, lines, None, base, depth, st).0;
    UnresolvedLines(f, lines, None, base, depth, st);
    JoinSplit(contents, "\n");
    JoinLength(lines);
    JoinLength(out);
  }

  /** The shortest text that shows it: the dot behind the path appears twice. */
  lemma PunctuationTwice(f: Files, text: string, base: string, depth: nat, st: State)
    requires NothingThere(f) && text == "@a."
    ensures Expand(f, text, base, depth, st) == (text + ".", st)
  {
    hide *;
    OnlyLine(text);
    var r := OnlyRef(text);
    SingleRef(f, text, r, base, depth, st);
    OneSegment(f, text, base, depth, st);
    OneLine(f, text, base, depth, st);
  }

  lemma SingleRef(f: Files, text: string, r: Ref, base: string, depth: nat, st: State)
    requires NothingThere(f) && r.index == 0 && Full(r) == text && RefEnd(r) <= |text|
    requires NextRef(text, 0) == Some(r) && NextRef(text, |text|) == None
    ensures ExpandSegment(f, text, 0, 0, base, depth, st) == (text + text[RefEnd(r)..], st)
  {
    hide NextRef, ExpandSegment, ExpandRef, RefEnd, Full;
    UnresolvedRef(f, r, base, depth, st);
    SegmentStep(f, text, 0, 0, base, depth, st);
    SegmentStep(f, text, |text|, RefEnd(r), base, depth, st);
    assert text[0..0] == "" && text[0..0] + text == text;
  }

  lemma OnlyLine(text: string)
    requires text == "@a."
    ensures Split(text, "\n") == [text] && FenceMarker(text) == None && Segments(text) == [text]
  {
    NoChar(text, '\n');
    CountZero(text, "\n");
    assert UntilBacktick(text[3..]) == 0 && UntilBacktick(text[2..]) == 1;
    assert UntilBacktick(text[1..]) == 2 && UntilBacktick(text) == 3;
  }

  lemma OnlyRef(text: string) returns (r: Ref)
    requires text == "@a."
    ensures r.index == 0 && Full(r) == text && RefEnd(r) <= |text| && text[RefEnd(r)..] == "."
    ensures NextRef(text, 0) == Some(r) && NextRef(text, |text|) == None
  {
    var path := text[1..];
    r := Ref(0, "", path);
    OnlyPath(path);
    hide Word, StripPunctuation;
    assert Full(r) == text && RefEnd(r) == 2;
  }

  lemma OnlyPath(path: string)
    requires path == "a."
    ensures Word(path) == path && StripPunctuation(path) == path[..1]
  {
    assert path[1..] == "." && path[1..][1..] == "";
    assert Word(path[1..][1..]) == "";
    assert Word(path[1..]) == ".";
    assert StripPunctuation(path[..1]) == path[..1];
  }

  lemma OneSegment(f: Files, text: string, base: string, depth: nat, st: State)
    requires text != "" && text[0] != '`'
    ensures ExpandParts(f, [text], base, depth, st) == ExpandSegment(f, text, 0, 0, base, depth, st)
  {
    hide ExpandSegment;
    var parts := [text];
    assert ExpandParts(f, parts[1..], base, depth, ExpandSegment(f, text, 0, 0, base, depth, st).1).0 == "";
    assert ExpandSegment(f, text, 0, 0, base, depth, st).0 + "" == ExpandSegment(f, text, 0, 0, base, depth, st).0;
  }

  lemma OneLine(f: Files, text: string, base: string, depth: nat, st: State)
    requires Split(text, "\n") == [text] && FenceMarker(text) == None && Segments(text) == [text]
    ensures Expand(f, text, base, depth, st) == ExpandParts(f, [text], base, depth, st)
  {
    hide ExpandParts, Split, FenceMarker, Segments;
    var lines := [text];
    var (out, st') := ExpandParts(f, [text], base, depth, st);
    assert lines[1..] == [];
    assert ExpandLines(f, lines[1..], None, base, depth, st') == ([], st');
    assert ExpandLines(f, lines, None, base, depth, st) == ([out] + [], st');
    assert [out] + [] == [out];
  }

  // ---------------------------------------------------------------------------- the expansion in place

  lemma LinesStep(f: Files, lines: seq<string>, i: nat, fence: Option<char>, base: string, depth: nat, st: State)
    requires i < |lines|
    ensures var line, marker, more := lines[i], FenceMarker(lines[i]), lines[i + 1..];
      ExpandLines(f, lines[i..], fence, base, depth, st) ==
        if marker.Some? && (fence == None || fence == marker) then
          var rest := ExpandLines(f, more, if fence == None then marker else None, base, depth, st);
          ([line] + rest.0, rest.1)
        else if fence.Some? then
          var rest := ExpandLines(f, more, fence, base, depth, st);
          ([line] + rest.0, rest.1)
        else
          var first := ExpandParts(f, Segments(line), base, depth, st);
          var rest := ExpandLines(f, more, fence, base, depth, first.1);
          ([first.0] + rest.0, rest.1)
  {
    hide FenceMarker, Segments, ExpandParts;
    assert lines[i..][0] == lines[i] && lines[i..][1..] == lines[i + 1..];
  }

  lemma LinesEnd(f: Files, lines: seq<string>, fence: Option<char>, base: string, depth: nat, st: State)
    ensures ExpandLines(f, lines[|lines|..], fence, base, depth, st) == ([], st)
  {}

  lemma PartsStep(f: Files, parts: seq<string>, i: nat, base: string, depth: nat, st: State)
    requires i < |parts|
    ensures var first :=
        if parts[i] != "" && parts[i][0] == '`' then (parts[i], st)
        else ExpandSegment(f, parts[i], 0, 0, base, depth, st);
      var rest := ExpandParts(f, parts[i + 1..], base, depth, first.1);
      ExpandParts(f, parts[i..], base, depth, st) == (first.0 + rest.0, rest.1)
  {
    hide ExpandSegment;
    assert parts[i..][0] == parts[i] && parts[i..][1..] == parts[i + 1..];
  }

  lemma PartsEnd(f: Files, parts: seq<string>, base: string, depth: nat, st: State)
    ensures ExpandParts(f, parts[|parts|..], base, depth, st) == ("", st)
  {}

  /** The memo and the budget that the branches of one expansion share and update. */
  class Expander {
    var visited: set<string>
    var budget: nat
    ghost var log: seq<Inlined>

    ghost function Now(): State reads this { State(visited, budget, log) }

    constructor (maxBytes: nat, source: Option<string>)
      ensures Now() == State(if source.Some? then {source.value} else {}, maxBytes, [])
    {
      visited := if source.Some? then {source.value} else {};
      budget := maxBytes;
      log := [];
    }

    method ExpandText(f: Files, contents: string, base: string, depth: nat) returns (text: string)
      modifies this
      ensures (text, Now()) == Expand(f, contents, base, depth, old(Now()))
      decreases depth, 6, 0
    {
      hide FenceMarker, Segments, ExpandLines, ExpandParts, Split, Join;
      var lines := Split(contents, "\n");
      var out: seq<string>, fence: Option<char> := [], None;
      ghost var goal := ExpandLines(f, lines, None, base, depth, Now());
      assert lines[0..] == lines;
      var i := 0;
      while i < |lines|
        invariant i <= |lines|
        invariant goal.0 == out + ExpandLines(f, lines[i..], fence, base, depth, Now()).0
        invariant goal.1 == ExpandLines(f, lines[i..], fence, base, depth, Now()).1
      {
        var line := lines[i];
        var marker := FenceMarker(line);
        LinesStep(f, lines, i, fence, base, depth, Now());
        i := i + 1;
        if marker.Some? && (fence == None || fence == marker) {
          fence := if fence == None then marker else None;
          out := out + [line];
        } else if fence.Some? {
          out := out + [line];
        } else {
          var piece := ExpandLine(f, line, base, depth);
          out := out + [piece];
        }
      }
      LinesEnd(f, lines, fence, base, depth, Now());
      assert out + [] == out;
      text := Join(out, "\n");
    }

    method ExpandLine(f: Files, line: string, base: string, depth: nat) returns (text: string)
      modifies this
      ensures (text, Now()) == ExpandParts(f, Segments(line), base, depth, old(Now()))
      decreases depth, 4, 0
    {
      hide ExpandSegment, ExpandParts, Segments;
      var parts := Segments(line);
      ghost var goal := ExpandParts(f, parts, base, depth, Now());
      assert parts[0..] == parts;
      text := "";
      var i := 0;
      while i < |parts|
        invariant i <= |parts|
        invariant goal.0 == text + ExpandParts(f, parts[i..], base, depth, Now()).0
        invariant goal.1 == ExpandParts(f, parts[i..], base, depth, Now()).1
      {
        PartsStep(f, parts, i, base, depth, Now());
        if parts[i] != "" && parts[i][0] == '`' {
          text := text + parts[i];
        } else {
          var piece := ExpandPlain(f, parts[i], base, depth);
          text := text + piece;
        }
        i := i + 1;
      }
      PartsEnd(f, parts, base, depth, Now());
      assert text + "" == text;
    }

    method ExpandPlain(f: Files, segment: string, base: string, depth: nat) returns (text: string)
      modifies this
      ensures (text, Now()) == ExpandSegment(f, segment, 0, 0, base, depth, old(Now()))
      decreases depth, 3, 0
    {
      hide RefAt, NextRef, ExpandSegment, ExpandRef, StripPunctuation, Full, RefEnd;
      ghost var goal := ExpandSegment(f, segment, 0, 0, base, depth, Now());
      text := "";
      var last: nat, from: nat := 0, 0;
      var ref := NextRef(segment, 0);
      while ref.Some?
        invariant last <= from <= |segment| && ref == NextRef(segment, from)
        invariant goal.0 == text + ExpandSegment(f, segment, from, last, base, depth, Now()).0
        invariant goal.1 == ExpandSegment(f, segment, from, last, base, depth, Now()).1
        decreases |segment| - from
      {
        var r := ref.value;
        SegmentStep(f, segment, from, last, base, depth, Now());
        var piece := ExpandMatch(f, r, base, depth);
        text := text + segment[last..r.index] + piece;
        last, from := RefEnd(r), r.index + |Full(r)|;
        ref := NextRef(segment, from);
      }
      SegmentStep(f, segment, from, last, base, depth, Now());
      text := text + segment[last..];
    }

    method ExpandMatch(f: Files, r: Ref, base: string, depth: nat) returns (text: string)
      modifies this
      ensures (text, Now()) == ExpandRef(f, r, base, depth, old(Now()))
      decreases depth, 2, 0
    {
      hide Inline, StripPunctuation;
      var path := StripPunctuation(r.path);
      if path == "" || path[0] == '@' { return Full(r); }
      var inlined := InlineImport(f, path, base, depth);
      text := if inlined == None then Full(r) else r.lead + inlined.value;
    }

    method InlineImport(f: Files, path: string, base: string, depth: nat) returns (text: Option<string>)
      modifies this
      ensures (text, Now()) == Inline(f, path, base, depth, old(Now()))
      decreases depth, 1, 0
    {
      hide Expand;
      if depth == 0 { return None; }
      var file := f.locate(path, base);
      if file == None || file.value in visited { return None; }
      var contents := f.read(file.value);
      if contents == None { return None; }
      visited := visited + {file.value};
      var size := f.bytes(contents.value);
      if size > budget { return None; }
      budget := budget - size;
      log := log + [Inlined(file.value, size, depth)];
      var inner := ExpandText(f, contents.value, f.dir(file.value), depth - 1);
      text := Some(inner);
    }
  }
}
