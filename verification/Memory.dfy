/**
 * A directory of memories, one file each, with an index that lists them line by line. The index is
 * text: it is read back before every change, so what a line loses is lost for good.
 */
module Memory {
  import opened Options
  import opened Text
  import opened Spacing
  import opened Glob

  // --------------------------------------------------------------------------------- file names

  predicate IsAlnum(c: char) { 'a' <= c <= 'z' || '0' <= c <= '9' }

  function DropOthers(s: string): (r: string)
    ensures |r| <= |s| && (r == "" || IsAlnum(r[0]))
    ensures s != "" && !IsAlnum(s[0]) ==> |r| < |s|
  {
    if s == "" || IsAlnum(s[0]) then s else DropOthers(s[1..])
  }

  /** Every run of other characters as one hyphen. */
  function Hyphenate(s: string): string
    decreases |s|
  {
    if s == "" then ""
    else if IsAlnum(s[0]) then [s[0]] + Hyphenate(s[1..])
    else "-" + Hyphenate(DropOthers(s))
  }

  function StripStart(s: string): string {
    if s != "" && s[0] == '-' then StripStart(s[1..]) else s
  }

  function StripEnd(s: string): string {
    if s != "" && s[|s| - 1] == '-' then StripEnd(s[..|s| - 1]) else s
  }

  /** `lower` maps a text to lower case. */
  function FileStem(lower: string -> string, name: string): string {
    StripEnd(StripStart(Hyphenate(lower(name))))
  }

  /** Lower-case letters and digits in words joined by single hyphens. */
  predicate IsKebab(s: string) {
    && (forall k :: 0 <= k < |s| ==> IsAlnum(s[k]) || s[k] == '-')
    && (forall k :: 0 < k < |s| ==> s[k - 1] != '-' || s[k] != '-')
  }

  predicate IsStem(s: string) {
    IsKebab(s) && (s != "" ==> s[0] != '-' && s[|s| - 1] != '-')
  }

  lemma {:induction false} HyphenateIsKebab(s: string)
    ensures IsKebab(Hyphenate(s))
    ensures s != "" && IsAlnum(s[0]) ==> Hyphenate(s) != "" && Hyphenate(s)[0] != '-'
    decreases |s|
  {
    hide IsKebab;
    if s == "" {
      KebabBasics();
    } else if IsAlnum(s[0]) {
      HyphenateIsKebab(s[1..]);
      KebabCons(s[0], Hyphenate(s[1..]));
    } else {
      HyphenateIsKebab(DropOthers(s));
      KebabCons('-', Hyphenate(DropOthers(s)));
    }
  }

  lemma KebabBasics()
    ensures IsKebab("")
  {}

  lemma KebabCons(c: char, s: string)
    requires IsKebab(s) && (IsAlnum(c) || (c == '-' && (s == "" || s[0] != '-')))
    ensures IsKebab([c] + s)
  {}

  lemma {:induction false} StripStartKebab(s: string)
    requires IsKebab(s)
    ensures IsKebab(StripStart(s)) && (StripStart(s) != "" ==> StripStart(s)[0] != '-')
  {
    hide IsAlnum;
    if s != "" && s[0] == '-' { StripStartKebab(s[1..]); }
  }

  lemma {:induction false} StripEndStem(s: string)
    requires IsKebab(s) && (s != "" ==> s[0] != '-')
    ensures IsStem(StripEnd(s))
  {
    hide IsAlnum;
    if s != "" && s[|s| - 1] == '-' { StripEndStem(s[..|s| - 1]); }
  }

  /** No path separator, dot or space survives, and a stem names itself. */
  lemma FileStemIsStem(lower: string -> string, name: string)
    ensures IsStem(FileStem(lower, name))
    ensures lower(FileStem(lower, name)) == FileStem(lower, name) ==>
      FileStem(lower, FileStem(lower, name)) == FileStem(lower, name)
  {
    hide IsKebab, IsStem, Hyphenate;
    var stem := FileStem(lower, name);
    HyphenateIsKebab(lower(name));
    StripStartKebab(Hyphenate(lower(name)));
    StripEndStem(StripStart(Hyphenate(lower(name))));
    HyphenateStem(stem);
    StripStem(stem);
  }

  lemma StripStem(s: string)
    requires IsStem(s)
    ensures StripStart(s) == s && StripEnd(s) == s
  {}

  lemma {:induction false} HyphenateStem(s: string)
    requires IsStem(s)
    ensures Hyphenate(s) == s
  {
    HyphenateKebab(s);
  }

  lemma {:induction false} HyphenateKebab(s: string)
    requires IsKebab(s) && (s != "" ==> s[|s| - 1] != '-')
    ensures Hyphenate(s) == s
    decreases |s|
  {
    if s != "" {
      if !IsAlnum(s[0]) {
        assert DropOthers(s) == s[1..] by {
          assert s[0] == '-' && |s| > 1 && s[1] != '-' && IsAlnum(s[1]);
          assert s[1..][0] == s[1];
        }
      }
      HyphenateKebab(s[1..]);
      assert s == [s[0]] + s[1..];
    }
  }

  /** What stands between the words of a file name: anything but letters and digits. */
  function Other(): Filler { c => !IsAlnum(c) }

  lemma {:induction false} HyphenateGap(g: string, rest: string)
    requires IsGap(g, Other()) && (rest != "" ==> IsAlnum(rest[0]))
    ensures Hyphenate(g + rest) == Short(g, '-') + Hyphenate(rest)
  {
    hide IsAlnum;
    if g == "" {
      assert g + rest == rest && "" + Hyphenate(rest) == Hyphenate(rest);
    } else {
      assert g[0] in g;
      DropGap(g, rest);
    }
  }

  lemma {:induction false} DropGap(g: string, rest: string)
    requires IsGap(g, Other()) && (rest != "" ==> IsAlnum(rest[0]))
    ensures DropOthers(g + rest) == rest
    decreases |g|
  {
    hide IsAlnum;
    if g == "" {
      assert g + rest == rest;
    } else {
      assert g[0] in g && (g + rest)[1..] == g[1..] + rest;
      DropGap(g[1..], rest);
    }
  }

  lemma {:induction false} HyphenateWord(w: string, rest: string)
    requires forall c :: c in w ==> IsAlnum(c)
    ensures Hyphenate(w + rest) == w + Hyphenate(rest)
    decreases |w|
  {
    hide IsAlnum;
    if w == "" {
      assert w + rest == rest && w + Hyphenate(rest) == Hyphenate(rest);
    } else {
      assert w[0] in w && (w + rest)[1..] == w[1..] + rest;
      HyphenateWord(w[1..], rest);
      assert [w[0]] + (w[1..] + Hyphenate(rest)) == w + Hyphenate(rest);
    }
  }

  lemma {:induction false} HyphenateWeave(gaps: seq<string>, words: seq<string>)
    requires Spaced(gaps, words, Other())
    ensures |gaps| == |words| + 1 && Hyphenate(Weave(gaps, words)) == Shortened(gaps, words, '-')
    decreases |words|
  {
    hide Spaced, Weave, Shortened, Short, Hyphenate, IsGap, IsWord;
    SpacedLengths(gaps, words, Other());
    WeaveStep(gaps, words);
    if words == [] {
      OnlyGap(gaps, Other());
      HyphenateGap(gaps[0], "");
      NothingHyphenated();
      assert gaps[0] + "" == gaps[0] && Short(gaps[0], '-') + "" == Short(gaps[0], '-');
      OnlyShort(gaps);
    } else {
      SpacedTail(gaps, words, Other());
      var rest := Weave(gaps[1..], words[1..]);
      AlnumWord(words[0]);
      assert words[0][0] in words[0] && (words[0] + rest)[0] == words[0][0];
      HyphenateGap(gaps[0], words[0] + rest);
      HyphenateWord(words[0], rest);
      HyphenateWeave(gaps[1..], words[1..]);
      ShortenedStep(gaps, words, Other(), '-');
    }
  }

  lemma NothingHyphenated()
    ensures Hyphenate("") == ""
  {}

  lemma OnlyShort(gaps: seq<string>)
    requires |gaps| == 1
    ensures Shortened(gaps, [], '-') == Short(gaps[0], '-')
  {}

  lemma AlnumWord(w: string)
    requires IsWord(w, Other())
    ensures w != "" && forall c :: c in w ==> IsAlnum(c)
  {}

  /** The stem is the words of the name in lower case, joined by single hyphens. */
  lemma StemJoins(lower: string -> string, name: string, words: seq<string>)
    requires HasWords(lower(name), words, Other())
    ensures FileStem(lower, name) == Join(words, "-")
  {
    hide Weave, Shortened, Hyphenate, StripStart, StripEnd, Join, IsGap, IsWord;
    var gaps :| |gaps| == |words| + 1 && Spaced(gaps, words, Other()) && lower(name) == Weave(gaps, words);
    HyphenateWeave(gaps, words);
    StripShortened(gaps, words);
  }

  lemma StripShortened(gaps: seq<string>, words: seq<string>)
    requires Spaced(gaps, words, Other())
    ensures |gaps| == |words| + 1 && StripEnd(StripStart(Shortened(gaps, words, '-'))) == Join(words, "-")
  {
    SpacedLengths(gaps, words, Other());
    hide Spaced;
    if words != [] {
      HyphenFreeEnds(gaps, words);
      hide Join;
      StripBetween(gaps[0], Join(words, "-"), gaps[|words|]);
    }
  }

  lemma StripBetween(before: string, j: string, behind: string)
    requires j != "" && j[0] != '-' && j[|j| - 1] != '-'
    ensures StripEnd(StripStart(Short(before, '-') + (j + Short(behind, '-')))) == j
  {
    hide IsAlnum;
    StripBoth(j, if behind == "" then "" else "-");
    var t := j + Short(behind, '-');
    assert before != "" ==> (['-'] + t)[1..] == t;
    assert "" + t == t;
    hide StripEnd;
  }

  lemma StripBoth(j: string, back: string)
    requires j != "" && j[0] != '-' && j[|j| - 1] != '-' && (back == "" || back == "-")
    ensures StripStart(j + back) == j + back && StripEnd(j + back) == j
  {
    assert j + "" == j && (j + "-")[..|j|] == j;
  }

  lemma {:induction false} HyphenFreeEnds(gaps: seq<string>, words: seq<string>)
    requires Spaced(gaps, words, Other()) && words != []
    ensures var j := Join(words, "-"); j != "" && j[0] != '-' && j[|j| - 1] != '-'
    decreases |words|
  {
    hide Spaced, Join, IsGap, IsWord;
    SpacedLengths(gaps, words, Other());
    SpacedTail(gaps, words, Other());
    AlnumWord(words[0]);
    var w, rest := words[0], words[1..];
    assert w[0] in w && w[|w| - 1] in w && words == [w] + rest;
    if rest == [] {
      assert words == [w];
      JoinOne(w, "-");
    } else {
      JoinCons(w, rest, "-");
      HyphenFreeEnds(gaps[1..], rest);
    }
  }

  function FileName(stem: string): string { stem + ".md" }

  predicate IsFileName(file: string) {
    |file| > 3 && file == FileName(file[..|file| - 3]) && IsStem(file[..|file| - 3])
  }

  // ------------------------------------------------------------------------------ one index line

  datatype Entry = Entry(file: string, description: string)

  const DASH := ") \U{2014} "

  /** The file without its extension. */
  function Shown(file: string): string {
    if |file| >= 3 && file[|file| - 3..] == ".md" then file[..|file| - 3] else file
  }

  function IndexLine(e: Entry): string {
    "- [" + Shown(e.file) + "](" + e.file + DASH + e.description
  }

  /** The length of `s` up to its first `c`. */
  function Until(s: string, c: char): (n: nat)
    ensures n <= |s| && c !in s[..n] && (n < |s| ==> s[n] == c)
  {
    if s == "" || s[0] == c then 0 else
      var n := Until(s[1..], c);
      assert s[..n + 1] == [s[0]] + s[1..][..n];
      n + 1
  }

  predicate OnOneLine(s: string) {
    forall k :: 0 <= k < |s| ==> !IsLineTerminator(s[k])
  }

  ghost predicate EndsWith(s: string, p: string) {
    |p| <= |s| && s[|s| - |p|..] == p
  }

  lemma EndsWithTail(s: string, k: nat, p: string)
    requires k <= |s|
    ensures EndsWith(s[k..], p) ==> EndsWith(s, p)
  {}

  /** What `^- \[[^\]]*\]\(([^)]+)\) — (.*)$` captures. */
  function ParseLine(line: string): (r: Option<Entry>)
    ensures r.Some? ==> EndsWith(line, DASH + r.value.description)
  {
    hide ParseLink, EndsWith;
    if "- [" <= line then
      EndsWithTail(line, 3, if ParseLink(line[3..]).Some? then DASH + ParseLink(line[3..]).value.description else "");
      ParseLink(line[3..])
    else None
  }

  /** From the name on. */
  function ParseLink(s: string): (r: Option<Entry>)
    ensures r.Some? ==> EndsWith(s, DASH + r.value.description)
  {
    hide ParseTarget, EndsWith;
    var n := Until(s, ']');
    if "](" <= s[n..] then
      var r := ParseTarget(s[n..][2..]);
      assert s[n..][2..] == s[n + 2..];
      EndsWithTail(s, n + 2, if r.Some? then DASH + r.value.description else "");
      r
    else None
  }

  /** From the file on. */
  function ParseTarget(s: string): (r: Option<Entry>)
    ensures r.Some? ==> EndsWith(s, DASH + r.value.description)
  {
    var n := Until(s, ')');
    ParseDescription(s[..n], s[n..])
  }

  function ParseDescription(file: string, s: string): (r: Option<Entry>)
    ensures r.Some? ==> s == DASH + r.value.description
  {
    if file == "" || !(DASH <= s) || !OnOneLine(s[|DASH|..]) then None else Some(Entry(file, s[|DASH|..]))
  }

  lemma {:induction false} UntilIs(a: string, s: string)
    requires s != "" && s[0] !in a
    ensures Until(a + s, s[0]) == |a|
  {
    if a == "" {
      assert a + s == s;
    } else {
      assert (a + s)[1..] == a[1..] + s;
      UntilIs(a[1..], s);
    }
  }

  /** A line of the index: a name in brackets, a file in parentheses, a dash and a description. */
  ghost predicate IsIndexLine(line: string, e: Entry) {
    && e.file != "" && ')' !in e.file && OnOneLine(e.description)
    && exists name :: ']' !in name && line == Spelled(name, e)
  }

  function Spelled(name: string, e: Entry): string {
    "- [" + (name + ("](" + (e.file + (") \U{2014} " + e.description))))
  }

  /** A line is read exactly when it is spelled that way. */
  lemma ParseIff(line: string, e: Entry)
    ensures ParseLine(line) == Some(e) <==> IsIndexLine(line, e)
  {
    hide ParseLine, OnOneLine;
    if ParseLine(line) == Some(e) { ReadSpelled(line, e); }
    if IsIndexLine(line, e) {
      var name :| ']' !in name && line == Spelled(name, e);
      SpelledRead(name, e);
    }
  }

  lemma SpelledRead(name: string, e: Entry)
    requires ']' !in name && e.file != "" && ')' !in e.file && OnOneLine(e.description)
    ensures ParseLine(Spelled(name, e)) == Some(e)
  {
    hide OnOneLine, ParseLink, ParseTarget, ParseDescription, Until, EndsWith;
    var target := e.file + (DASH + e.description);
    var link := "](" + target;
    var line := "- [" + (name + link);
    assert line[3..] == name + link && "- [" <= line;
    LinkIs(name, target);
    TargetIs(e.file, DASH + e.description);
    DescriptionIs(e.file, e.description);
  }

  lemma ReadSpelled(line: string, e: Entry)
    requires ParseLine(line) == Some(e)
    ensures IsIndexLine(line, e)
  {
    hide OnOneLine, Until, EndsWith, ParseLink;
    var name, target := LinkRead(line[3..], e);
    TargetRead(target, e);
    assert line == "- [" + line[3..];
    assert line == Spelled(name, e);
  }

  lemma LinkRead(s: string, e: Entry) returns (name: string, target: string)
    requires ParseLink(s) == Some(e)
    ensures ']' !in name && s == name + ("](" + target) && ParseTarget(target) == Some(e)
  {
    hide Until, EndsWith, ParseTarget;
    var n := Until(s, ']');
    var link := s[n..];
    name, target := s[..n], link[2..];
    assert link == "](" + target && s == name + link;
  }

  lemma TargetRead(target: string, e: Entry)
    requires ParseTarget(target) == Some(e)
    ensures target == e.file + (") \U{2014} " + e.description)
    ensures e.file != "" && ')' !in e.file && OnOneLine(e.description)
  {
    hide Until, EndsWith, OnOneLine;
    var m := Until(target, ')');
    assert target == target[..m] + target[m..];
  }

  /** A file name that a link of the index can hold. */
  predicate Linkable(file: string) {
    file != "" && ')' !in file && '\n' !in file && ']' !in Shown(file)
  }

  lemma FileNamesLinkable(file: string)
    requires IsFileName(file)
    ensures Linkable(file)
  {
    forall c | c in file ensures IsAlnum(c) || c == '-' || c == '.' {
      var k :| 0 <= k < |file| && file[k] == c;
      if k < |file| - 3 { assert file[..|file| - 3][k] == c; }
    }
    assert ']' !in file;
  }

  /** The front of the line of `file`, up to its target. */
  function Front(file: string): string {
    "- [" + Shown(file) + "](" + file
  }

  lemma ParseFront(file: string, s: string)
    requires Linkable(file) && s != "" && s[0] == ')'
    ensures ParseLine(Front(file) + s) == ParseDescription(file, s)
  {
    hide Shown, Until, ParseLink, ParseTarget, ParseDescription;
    var line, target := Front(file) + s, file + s;
    var link := "](" + target;
    assert line == "- [" + (Shown(file) + link) && line[3..] == Shown(file) + link;
    LinkIs(Shown(file), target);
    TargetIs(file, s);
  }

  lemma LinkIs(name: string, target: string)
    requires ']' !in name
    ensures ParseLink(name + ("](" + target)) == ParseTarget(target)
  {
    hide ParseTarget, Until;
    var link := "](" + target;
    var s := name + link;
    UntilIs(name, link);
    assert s[|name|..] == link && link[2..] == target;
  }

  lemma TargetIs(file: string, s: string)
    requires ')' !in file && s != "" && s[0] == ')'
    ensures ParseTarget(file + s) == ParseDescription(file, s)
  {
    hide ParseDescription, Until;
    UntilIs(file, s);
    assert (file + s)[|file|..] == s && (file + s)[..|file|] == file;
  }

  lemma DescriptionIs(file: string, d: string)
    requires file != ""
    ensures ParseDescription(file, DASH + d) == if OnOneLine(d) then Some(Entry(file, d)) else None
    ensures ParseDescription(file, ") \U{2014}") == None
  {
    hide OnOneLine;
    assert (DASH + d)[|DASH|..] == d;
  }

  /** A description as its line gives it back, if it does. */
  function Readable(d: string): Option<string> {
    if TrimEnd(d) == "" || !OnOneLine(TrimEnd(d)) then None else Some(TrimEnd(d))
  }

  /** A description comes back as it is if and only if it is not empty, ends in no space and stays on one line. */
  lemma ReadableIff(d: string)
    ensures Readable(d) == Some(d) <==> d != "" && !IsSpace(d[|d| - 1]) && OnOneLine(d)
    ensures Readable(d) == None <==> Blank(d) || !OnOneLine(TrimEnd(d))
  {
    hide OnOneLine, Blank;
    TrimEndBlank(d);
  }

  lemma {:induction false} TrimEndConcat(a: string, b: string)
    ensures TrimEnd(a + b) == if TrimEnd(b) == "" then TrimEnd(a) else a + TrimEnd(b)
    decreases |b|
  {
    if b == "" {
      assert a + b == a;
    } else {
      var n := |b| - 1;
      assert (a + b)[..|a + b| - 1] == a + b[..n] && (a + b)[|a + b| - 1] == b[n];
      if IsSpace(b[n]) { TrimEndConcat(a, b[..n]); }
    }
  }

  lemma TrimEndDash()
    ensures TrimEnd(DASH) == ") \U{2014}"
  {
    var bare := ") \U{2014}";
    assert DASH[..3] == bare && IsSpace(DASH[3]) && !IsSpace(bare[2]);
  }

  lemma LineReadsBack(e: Entry)
    requires Linkable(e.file)
    ensures ParseLine(Trim(IndexLine(e))) ==
      if Readable(e.description).None? then None else Some(e.(description := Readable(e.description).value))
  {
    assert e.file != "";
    hide OnOneLine, Linkable, ParseLine, TrimEnd, ParseDescription;
    var front, d := Front(e.file), e.description;
    var line := front + (DASH + d);
    assert IndexLine(e) == line;
    assert front[0] == '-' && !IsSpace('-') && TrimStart(line) == line;
    hide TrimStart, Front, Shown;
    TrimEndConcat(front, DASH + d);
    TrimEndConcat(DASH, d);
    TrimEndDash();
    var tail := if TrimEnd(d) == "" then ") \U{2014}" else DASH + TrimEnd(d);
    assert Trim(line) == front + tail;
    ParseFront(e.file, tail);
    DescriptionIs(e.file, TrimEnd(d));
  }

  // ----------------------------------------------------------------------------------- the index

  function ParseLines(lines: seq<string>): seq<Entry> {
    if lines == [] then []
    else
      var e := ParseLine(Trim(lines[0]));
      (if e.Some? then [e.value] else []) + ParseLines(lines[1..])
  }

  function ParseIndex(raw: string): seq<Entry> {
    ParseLines(Split(raw, "\n"))
  }

  method ReadIndex(raw: string) returns (entries: seq<Entry>)
    ensures entries == ParseIndex(raw)
  {
    hide ParseLine, Trim, Split;
    var lines := Split(raw, "\n");
    entries := [];
    assert lines[0..] == lines;
    for i := 0 to |lines|
      invariant ParseLines(lines) == entries + ParseLines(lines[i..])
    {
      assert lines[i..][0] == lines[i] && lines[i..][1..] == lines[i + 1..];
      var e := ParseLine(Trim(lines[i]));
      if e.Some? { entries := entries + [e.value]; }
    }
  }

  function IndexLines(entries: seq<Entry>): seq<string> {
    if entries == [] then [""] else [IndexLine(entries[0])] + IndexLines(entries[1..])
  }

  const HEADER := "# Memory Index"

  function RenderIndex(entries: seq<Entry>): string {
    Join([HEADER, ""] + IndexLines(entries), "\n")
  }

  /** The entries that can be read back, as they are read back. */
  function Survivors(entries: seq<Entry>): seq<Entry> {
    if entries == [] then []
    else
      var d := Readable(entries[0].description);
      (if d.Some? then [entries[0].(description := d.value)] else []) + Survivors(entries[1..])
  }

  ghost predicate WellFormed(entries: seq<Entry>) {
    forall e :: e in entries ==> Linkable(e.file) && '\n' !in e.description
  }

  lemma {:induction false} LinesReadBack(entries: seq<Entry>)
    requires WellFormed(entries)
    ensures ParseLines(IndexLines(entries)) == Survivors(entries)
    ensures forall l :: l in IndexLines(entries) ==> '\n' !in l
  {
    hide Linkable, Readable, ParseLine, Trim, IndexLine;
    if entries == [] {
      EmptyLine();
    } else {
      assert entries[0] in entries;
      LineReadsBack(entries[0]);
      OneLineEach(entries[0]);
      LinesReadBack(entries[1..]);
      assert IndexLines(entries)[1..] == IndexLines(entries[1..]);
    }
  }

  lemma EmptyLine()
    ensures ParseLines([""]) == []
  {
    var lines := [""];
    TrimBlank("");
    assert ParseLines(lines[1..]) == [];
  }

  lemma OneLineEach(e: Entry)
    requires Linkable(e.file) && '\n' !in e.description
    ensures '\n' !in IndexLine(e)
  {
    assert forall c :: c in Shown(e.file) ==> c in e.file;
    hide Shown;
  }

  /** Reading a written index gives back exactly the readable part of every entry. */
  lemma IndexReadsBack(entries: seq<Entry>)
    requires WellFormed(entries)
    ensures ParseIndex(RenderIndex(entries)) == Survivors(entries)
  {
    hide IndexLines, Survivors, Split, Join, ParseLines;
    LinesReadBack(entries);
    var body := IndexLines(entries);
    var lines := [HEADER, ""] + body;
    assert '\n' !in HEADER && '\n' !in "";
    SplitJoin(lines, '\n');
    HeaderDropped(body);
  }

  lemma NoEntry(s: string)
    requires s == "" || (!IsSpace(s[0]) && s[0] != '-')
    ensures ParseLine(Trim(s)) == None
  {
    hide TrimEnd;
    TrimBlank("");
    assert s != "" ==> TrimStart(s) == s;
  }

  lemma HeaderDropped(body: seq<string>)
    ensures ParseLines([HEADER, ""] + body) == ParseLines(body)
  {
    var lines := [HEADER, ""] + body;
    assert lines[1..] == [""] + body && ([""] + body)[1..] == body;
    NoEntry("");
    NoEntry(HEADER);
    hide ParseLine, Trim;
    assert ParseLines(lines) == ParseLines(lines[1..]);
  }

  /** What is read from any index can be written and read again unchanged. */
  lemma {:induction false} ParsedReadable(lines: seq<string>)
    ensures forall e :: e in ParseLines(lines) ==> Readable(e.description) == Some(e.description)
  {
    hide ParseLine, Readable, Trim;
    if lines != [] {
      ParsedReadable(lines[1..]);
      LineReadable(lines[0]);
    }
  }

  lemma LineReadable(line: string)
    ensures var e := ParseLine(Trim(line)); e.Some? ==> Readable(e.value.description) == Some(e.value.description)
  {
    var t := Trim(line);
    if ParseLine(t).Some? {
      var d := ParseLine(t).value.description;
      LineOnOneLine(t);
      hide Trim, ParseLine, OnOneLine;
      var end := DASH + d;
      assert t[|t| - |end|..][|end| - 1] == t[|t| - 1] == end[|end| - 1];
      assert !IsSpace(t[|t| - 1]) && d != "";
      assert TrimEnd(d) == d;
    }
  }

  lemma LineOnOneLine(t: string)
    ensures var e := ParseLine(t); e.Some? ==> OnOneLine(e.value.description)
  {}

  lemma {:induction false} SurvivorsSame(entries: seq<Entry>)
    requires forall e :: e in entries ==> Readable(e.description) == Some(e.description)
    ensures Survivors(entries) == entries
  {
    hide Readable;
    if entries != [] {
      assert entries[0] in entries;
      SurvivorsSame(entries[1..]);
    }
  }

  lemma {:induction false} SurvivorsConcat(a: seq<Entry>, b: seq<Entry>)
    ensures Survivors(a + b) == Survivors(a) + Survivors(b)
  {
    hide Readable, Survivors;
    SurvivorsStep(a);
    if a == [] {
      assert a + b == b;
    } else {
      SurvivorsStep(a + b);
      assert (a + b)[1..] == a[1..] + b;
      SurvivorsConcat(a[1..], b);
    }
  }

  lemma SurvivorsStep(entries: seq<Entry>)
    ensures Survivors(entries) ==
      if entries == [] then [] else Surviving(entries[0]) + Survivors(entries[1..])
  {
    hide Readable;
  }

  /** The entry as it is read back, if it is. */
  function Surviving(e: Entry): seq<Entry> {
    var d := Readable(e.description);
    if d.Some? then [e.(description := d.value)] else []
  }

  // -------------------------------------------------------------------------------- the directory

  datatype Fact = Fact(name: string, description: string, body: string)

  function Without(entries: seq<Entry>, file: string): (r: seq<Entry>)
    ensures forall e :: e in r <==> e in entries && e.file != file
  {
    if entries == [] then []
    else (if entries[0].file == file then [] else [entries[0]]) + Without(entries[1..], file)
  }

  function Listed(index: Option<string>): seq<Entry> {
    if index.None? then [] else ParseIndex(index.value)
  }

  ghost predicate Distinct(entries: seq<Entry>) {
    forall i, j :: 0 <= i < j < |entries| ==> entries[i].file != entries[j].file
  }

  /** One entry for every file and one file for every entry. */
  ghost predicate Agree(files: map<string, Fact>, entries: seq<Entry>) {
    && Distinct(entries)
    && (forall e :: e in entries ==> e.file in files && e.description == files[e.file].description)
    && (forall file :: file in files ==> Entry(file, files[file].description) in entries)
  }

  predicate Valid(lower: string -> string, m: Fact) {
    FileStem(lower, m.name) != "" && '\r' !in m.name + m.description && '\n' !in m.name + m.description
  }

  /** The index behind a write: every other entry as before, the new one if it can be read back. */
  lemma UpsertLists(entries: seq<Entry>, raw: string, file: string, d: string)
    requires entries == ParseIndex(raw) || entries == []
    requires WellFormed(entries) && Linkable(file) && '\n' !in d
    ensures ParseIndex(RenderIndex(Without(entries, file) + [Entry(file, d)])) ==
      Without(entries, file) + if Readable(d).None? then [] else [Entry(file, Readable(d).value)]
  {
    hide Linkable, Readable, RenderIndex, Survivors, ParseLines;
    var kept := Without(entries, file);
    ParsedReadable(Split(raw, "\n"));
    SurvivorsSame(kept);
    IndexReadsBack(kept + [Entry(file, d)]);
    SurvivorsConcat(kept, [Entry(file, d)]);
    SurvivorsOne(Entry(file, d));
  }

  lemma SurvivorsOne(e: Entry)
    ensures var d := Readable(e.description);
      Survivors([e]) == if d.None? then [] else [e.(description := d.value)]
  {
    hide Readable;
    var es := [e];
    assert Survivors(es[1..]) == [];
  }

  lemma RemoveLists(raw: string, file: string)
    requires WellFormed(ParseIndex(raw))
    ensures ParseIndex(RenderIndex(Without(ParseIndex(raw), file))) == Without(ParseIndex(raw), file)
  {
    hide Linkable, Readable, RenderIndex, Survivors, ParseLines;
    var kept := Without(ParseIndex(raw), file);
    ParsedReadable(Split(raw, "\n"));
    SurvivorsSame(kept);
    IndexReadsBack(kept);
  }

  lemma {:induction false} WithoutDistinct(entries: seq<Entry>, file: string)
    requires Distinct(entries)
    ensures Distinct(Without(entries, file))
  {
    if entries != [] {
      assert Distinct(entries[1..]);
      WithoutDistinct(entries[1..], file);
      var rest := Without(entries[1..], file);
      forall e | e in rest ensures e.file != entries[0].file {
        assert e in entries[1..];
        var k :| 0 <= k < |entries[1..]| && entries[1..][k] == e;
        assert entries[k + 1] == e;
      }
    }
  }

  lemma AgreeWithout(files: map<string, Fact>, entries: seq<Entry>, file: string)
    requires Agree(files, entries)
    ensures Agree(files - {file}, Without(entries, file))
  {
    hide Distinct;
    WithoutDistinct(entries, file);
  }

  /** The entries behind a write of `m` to `file`. */
  function Written(entries: seq<Entry>, file: string, m: Fact): seq<Entry> {
    var d := Readable(m.description);
    Without(entries, file) + if d.None? then [] else [Entry(file, d.value)]
  }

  /**
   * From any state: behind a write index and directory agree if and only if the description reads back
   * as it is and they agreed on everything else.
   */
  lemma AgreeBehindWrite(files: map<string, Fact>, entries: seq<Entry>, file: string, m: Fact)
    ensures Agree(files[file := m], Written(entries, file, m)) <==>
      Readable(m.description) == Some(m.description) && Agree(files - {file}, Without(entries, file))
  {
    hide Readable, Distinct, Agree;
    var kept, d := Without(entries, file), Readable(m.description);
    if d.Some? {
      var now, e := Written(entries, file, m), Entry(file, d.value);
      assert now == kept + [e];
      if Distinct(kept) { DistinctAppend(kept, e); }
      if Agree(files[file := m], now) {
        AgreeDistinct(files[file := m], now);
        DistinctFront(kept, e);
        AgreeElsewhere(files, kept, file, m, d.value);
      }
      if Agree(files - {file}, kept) {
        AgreeDistinct(files - {file}, kept);
        AgreeWith(files, kept, file, m, d.value);
      }
    } else {
      assert kept + [] == kept;
      NotListed(files, kept, file, m);
    }
  }

  lemma DistinctFront(kept: seq<Entry>, e: Entry)
    requires Distinct(kept + [e])
    ensures Distinct(kept)
  {
    var now := kept + [e];
    forall i, j | 0 <= i < j < |kept| ensures kept[i].file != kept[j].file {
      assert now[i].file != now[j].file;
    }
  }

  lemma AgreeElsewhere(files: map<string, Fact>, kept: seq<Entry>, file: string, m: Fact, d: string)
    requires Agree(files[file := m], kept + [Entry(file, d)]) && Distinct(kept)
    requires forall e :: e in kept ==> e.file != file
    ensures Agree(files - {file}, kept) && d == m.description
  {
    hide Distinct;
    var now, after := kept + [Entry(file, d)], files[file := m];
    assert forall e :: e in now <==> e in kept || e == Entry(file, d);
    forall f | f in files - {file} ensures Entry(f, files[f].description) in kept {
      assert f in after;
    }
    assert Entry(file, d) in now;
  }

  /** A description that does not read back breaks the agreement, and only on this file. */
  lemma BrokenElsewhereFine(files: map<string, Fact>, entries: seq<Entry>, file: string, m: Fact)
    requires Agree(files, entries)
    ensures Agree(files[file := m] - {file}, Without(Written(entries, file, m), file))
  {
    hide Readable, Distinct, Agree;
    var kept, d := Without(entries, file), Readable(m.description);
    AgreeWithout(files, entries, file);
    assert files[file := m] - {file} == files - {file};
    WithoutSame(kept, file);
    if d.Some? {
      WithoutConcat(kept, [Entry(file, d.value)], file);
      WithoutOne(Entry(file, d.value));
      assert kept + [] == kept;
    } else {
      assert kept + [] == kept;
    }
  }

  lemma {:induction false} WithoutSame(entries: seq<Entry>, file: string)
    requires forall e :: e in entries ==> e.file != file
    ensures Without(entries, file) == entries
  {
    if entries != [] {
      assert entries[0] in entries;
      WithoutSame(entries[1..], file);
    }
  }

  lemma {:induction false} WithoutConcat(a: seq<Entry>, b: seq<Entry>, file: string)
    ensures Without(a + b, file) == Without(a, file) + Without(b, file)
  {
    if a == [] {
      assert a + b == b;
    } else {
      assert (a + b)[1..] == a[1..] + b;
      WithoutConcat(a[1..], b, file);
    }
  }

  lemma WithoutOne(e: Entry)
    ensures Without([e], e.file) == []
  {
    var es := [e];
    assert Without(es[1..], e.file) == [];
  }

  /** A write that does not read back is repaired by any later readable write of that file, or its removal. */
  lemma LaterWriteRepairs(files: map<string, Fact>, entries: seq<Entry>, file: string, bad: Fact, good: Fact)
    requires Agree(files, entries) && Readable(good.description) == Some(good.description)
    ensures var files', entries' := files[file := bad], Written(entries, file, bad);
      Agree(files'[file := good], Written(entries', file, good)) && Agree(files' - {file}, Without(entries', file))
  {
    hide Readable, Agree, Without;
    BrokenElsewhereFine(files, entries, file, bad);
    AgreeBehindWrite(files[file := bad], Written(entries, file, bad), file, good);
  }

  /** A memory without a description is accepted, and leaves the empty directory with a file its index does not list. */
  lemma EmptyDescriptionVanishes(lower: string -> string, m: Fact)
    requires IsStem(m.name) && m.name != "" && lower(m.name) == m.name && m.description == ""
    ensures var index := Some(RenderIndex([Entry(FileName(m.name), "")]));
      Valid(lower, m) && Listed(index) == [] && Agree(map[], []) && !Agree(map[FileName(m.name) := m], Listed(index))
  {
    hide RenderIndex, ParseIndex, Readable, Hyphenate, StripStart, StripEnd, IsStem, Linkable, Agree;
    var file := FileName(m.name);
    HyphenateStem(m.name);
    StripStem(m.name);
    StemOnOneLine(m.name);
    FileNameIs(lower, m.name);
    FileNamesLinkable(file);
    Unreadable();
    UpsertLists([], "", file, "");
    assert Without([], file) == [] && [] + [Entry(file, "")] == [Entry(file, "")];
    NothingAgrees();
    NotListed(map[], [], file, m);
    assert map[][file := m] == map[file := m];
  }

  lemma NothingAgrees()
    ensures Agree(map[], [])
  {}

  lemma StemOnOneLine(s: string)
    requires IsStem(s)
    ensures '\r' !in s && '\n' !in s
  {}

  /** For one: the memory named `flaky`. */
  lemma FlakyVanishes(m: Fact)
    requires m.name == "flaky" && m.description == ""
    ensures var index := Some(RenderIndex([Entry(FileName(m.name), "")]));
      Valid(name => name, m) && !Agree(map[FileName(m.name) := m], Listed(index))
  {
    hide *;
    KebabFlaky(m.name);
    EmptyDescriptionVanishes(name => name, m);
  }

  lemma KebabFlaky(stem: string)
    requires stem == "flaky"
    ensures IsStem(stem) && stem != ""
  {}

  lemma Unreadable()
    ensures Readable("") == None
  {}

  lemma AgreeDistinct(files: map<string, Fact>, entries: seq<Entry>)
    requires Agree(files, entries)
    ensures Distinct(entries)
  {}

  lemma DistinctAppend(kept: seq<Entry>, e: Entry)
    requires Distinct(kept)
    requires forall k :: k in kept ==> k.file != e.file
    ensures Distinct(kept + [e])
  {
    var now := kept + [e];
    forall i, j | 0 <= i < j < |now| ensures now[i].file != now[j].file {
      if j == |kept| { assert kept[i] in kept; }
    }
  }

  lemma NotListed(files: map<string, Fact>, kept: seq<Entry>, file: string, m: Fact)
    requires forall e :: e in kept ==> e.file != file
    ensures !Agree(files[file := m], kept)
  {
    assert file in files[file := m];
    assert Entry(file, m.description) !in kept;
  }

  lemma AgreeWith(files: map<string, Fact>, kept: seq<Entry>, file: string, m: Fact, d: string)
    requires Agree(files - {file}, kept) && Distinct(kept + [Entry(file, d)])
    requires forall e :: e in kept ==> e.file != file
    ensures Agree(files[file := m], kept + [Entry(file, d)]) <==> d == m.description
  {
    hide Distinct;
    var now, after := kept + [Entry(file, d)], files[file := m];
    assert forall e :: e in now <==> e in kept || e == Entry(file, d);
    assert Entry(file, m.description) !in kept;
    forall f | f in after && f != file ensures Entry(f, after[f].description) in kept {
      assert f in files - {file};
    }
    assert file in after;
  }

  class MemoryDir {
    const lower: string -> string
    var files: map<string, Fact>
    var index: Option<string>

    ghost predicate Consistent() reads this { Agree(files, Listed(index)) }

    /** Every entry can be written back: always so behind the methods, unless the index was edited by hand. */
    ghost predicate Linked() reads this { forall e :: e in Listed(index) ==> Linkable(e.file) }

    constructor (lower: string -> string)
      ensures this.lower == lower && files == map[] && index == None && Consistent() && Linked()
    {
      this.lower := lower;
      files := map[];
      index := None;
    }

    /**
     * From any state. A memory whose description reads back makes index and directory agree wherever
     * they agreed on the other files; any other leaves them disagreeing on this one.
     */
    method Upsert(m: Fact) returns (ok: bool)
      modifies this
      ensures ok <==> Valid(lower, m)
      ensures !ok ==> files == old(files) && index == old(index)
      ensures var file := FileName(FileStem(lower, m.name));
        ok ==> files == old(files)[file := m]
               && index == Some(RenderIndex(Without(old(Listed(index)), file) + [Entry(file, m.description)]))
      ensures var file := FileName(FileStem(lower, m.name));
        ok && old(Linked()) ==>
          && Linked() && Listed(index) == Written(old(Listed(index)), file, m)
          && (Consistent() <==>
              && Readable(m.description) == Some(m.description)
              && Agree(old(files) - {file}, Without(old(Listed(index)), file)))
    {
      hide Readable, RenderIndex, ParseIndex, FileStem, Agree, Linkable;
      if !Valid(lower, m) { return false; }
      var file := FileName(FileStem(lower, m.name));
      FileNameIs(lower, m.name);
      FileNamesLinkable(file);
      var raw := if index.Some? then index.value else "";
      var entries := [];
      if index.Some? { entries := ReadIndex(raw); }
      assert entries == Listed(index);
      ListedReadable(index);
      if Linked() {
        LinkedWellFormed(entries);
        UpsertLists(entries, raw, file, m.description);
      }
      AgreeBehindWrite(files, entries, file, m);
      files := files[file := m];
      index := Some(RenderIndex(Without(entries, file) + [Entry(file, m.description)]));
      return true;
    }

    /** From any state: file and line go together, and nothing else does. */
    method Remove(name: string)
      modifies this
      ensures files == old(files) - {FileName(FileStem(lower, name))}
      ensures var file := FileName(FileStem(lower, name));
        index == if old(index) == None then None else Some(RenderIndex(Without(old(Listed(index)), file)))
      ensures var file := FileName(FileStem(lower, name));
        old(Linked()) ==>
          && Linked() && Listed(index) == Without(old(Listed(index)), file)
          && (Consistent() <==> Agree(old(files) - {file}, Without(old(Listed(index)), file)))
      ensures old(Linked() && Consistent()) ==> Consistent()
    {
      hide RenderIndex, ParseIndex, FileStem, Agree, Linkable;
      var file := FileName(FileStem(lower, name));
      if Consistent() { AgreeWithout(files, Listed(index), file); }
      ListedReadable(index);
      files := files - {file};
      if index == None { return; }
      var entries := ReadIndex(index.value);
      if Linked() {
        LinkedWellFormed(entries);
        RemoveLists(index.value, file);
      }
      index := Some(RenderIndex(Without(entries, file)));
    }
  }

  lemma FileNameIs(lower: string -> string, name: string)
    requires FileStem(lower, name) != ""
    ensures IsFileName(FileName(FileStem(lower, name)))
  {
    hide FileStem;
    FileStemIsStem(lower, name);
    var stem := FileStem(lower, name);
    assert FileName(stem)[..|stem|] == stem;
  }

  lemma ListedReadable(index: Option<string>)
    ensures forall e :: e in Listed(index) ==> Readable(e.description) == Some(e.description)
  {
    hide Readable, ParseLines;
    if index.Some? { ParsedReadable(Split(index.value, "\n")); }
  }

  lemma LinkedWellFormed(entries: seq<Entry>)
    requires forall e :: e in entries ==> Linkable(e.file) && Readable(e.description) == Some(e.description)
    ensures WellFormed(entries)
  {
    hide Linkable;
  }
}
