/** Texts as words between stretches of white space, or of any other kind of filler. */
module Spacing {
  import opened Text

  /** Which characters stand between words. */
  type Filler = char -> bool

  predicate IsGap(s: string, sep: Filler) {
    forall c :: c in s ==> sep(c)
  }

  predicate IsWord(s: string, sep: Filler) {
    s != "" && forall c :: c in s ==> !sep(c)
  }

  /** A gap, a word, a gap, …, a word, a gap. */
  function Weave(gaps: seq<string>, words: seq<string>): string
    requires |gaps| == |words| + 1
  {
    if words == [] then gaps[0] else gaps[0] + (words[0] + Weave(gaps[1..], words[1..]))
  }

  /** Words without filler, filler around them, and some of it between any two. */
  ghost predicate Spaced(gaps: seq<string>, words: seq<string>, sep: Filler) {
    && |gaps| == |words| + 1
    && (forall k :: 0 <= k < |gaps| ==> IsGap(gaps[k], sep))
    && (forall k :: 0 <= k < |words| ==> IsWord(words[k], sep))
    && forall k :: 0 < k < |words| ==> gaps[k] != ""
  }

  /** These are the words of the text, in order. */
  ghost predicate HasWords(s: string, words: seq<string>, sep: Filler) {
    exists gaps :: Spaced(gaps, words, sep) && s == Weave(gaps, words)
  }

  lemma SpacedTail(gaps: seq<string>, words: seq<string>, sep: Filler)
    requires Spaced(gaps, words, sep) && words != []
    ensures Spaced(gaps[1..], words[1..], sep) && IsGap(gaps[0], sep) && IsWord(words[0], sep)
    ensures |words| > 1 ==> gaps[1] != ""
  {
    hide IsGap, IsWord;
  }

  /** What stands behind a word: nothing, or filler. */
  predicate Ends(s: string, sep: Filler) {
    s == "" || sep(s[0])
  }

  lemma BehindWord(gaps: seq<string>, words: seq<string>, sep: Filler)
    requires Spaced(gaps, words, sep) && (words != [] ==> gaps[0] != "")
    ensures Ends(Weave(gaps, words), sep)
  {
    assert IsGap(gaps[0], sep);
    hide Weave;
    WeaveStep(gaps, words);
    if gaps[0] != "" { assert gaps[0][0] in gaps[0]; }
  }

  lemma WeaveStep(gaps: seq<string>, words: seq<string>)
    requires |gaps| == |words| + 1
    ensures Weave(gaps, words) ==
      if words == [] then gaps[0] else gaps[0] + (words[0] + Weave(gaps[1..], words[1..]))
  {}

  /** Without a gap behind it, the last word stands at the end. */
  lemma {:induction false} WeaveEnds(gaps: seq<string>, words: seq<string>) returns (front: string)
    requires |gaps| == |words| + 1 && words != [] && gaps[|words|] == ""
    ensures Weave(gaps, words) == front + words[|words| - 1]
    decreases |words|
  {
    hide Weave;
    var g, w, more, rest := gaps[0], words[0], gaps[1..], words[1..];
    assert more[|rest|] == gaps[|words|];
    WeaveStep(gaps, words);
    if rest == [] {
      WeaveStep(more, rest);
      front := g;
      assert w + "" == w;
    } else {
      var later := WeaveEnds(more, rest);
      assert rest[|rest| - 1] == words[|words| - 1];
      front := g + (w + later);
      LastBehind(g, w, later, rest[|rest| - 1]);
    }
  }

  /** The last gap stands at the end. */
  lemma {:induction false} LastOfWeave(gaps: seq<string>, words: seq<string>)
    requires |gaps| == |words| + 1
    ensures Weave(gaps, words) == Weave(gaps[|words| := ""], words) + gaps[|words|]
    decreases |words|
  {
    hide Weave;
    var bare := gaps[|words| := ""];
    WeaveStep(gaps, words);
    WeaveStep(bare, words);
    if words == [] {
      assert "" + gaps[0] == gaps[0];
    } else {
      LastOfWeave(gaps[1..], words[1..]);
      assert bare[1..] == gaps[1..][|words| - 1 := ""];
      LastBehind(gaps[0], words[0], Weave(bare[1..], words[1..]), gaps[|words|]);
    }
  }

  lemma LastBehind(g: string, w: string, rest: string, last: string)
    ensures g + (w + (rest + last)) == g + (w + rest) + last
  {}

  // ------------------------------------------------------------------- every text has its words

  /** One character more in front of spaced words. */
  function PutInFront(c: char, gaps: seq<string>, words: seq<string>, sep: Filler): (r: (seq<string>, seq<string>))
    requires |gaps| == |words| + 1
    ensures |r.0| == |r.1| + 1
  {
    if sep(c) then ([[c] + gaps[0]] + gaps[1..], words)
    else if gaps[0] == "" && words != [] then (gaps, [[c] + words[0]] + words[1..])
    else ([""] + gaps, [[c]] + words)
  }

  lemma PutInFrontSpaced(c: char, gaps: seq<string>, words: seq<string>, sep: Filler)
    requires Spaced(gaps, words, sep)
    ensures var (g, w) := PutInFront(c, gaps, words, sep); Spaced(g, w, sep)
  {
    assert forall k :: 0 <= k < |gaps| ==> IsGap(gaps[k], sep);
    assert forall k :: 0 <= k < |words| ==> IsWord(words[k], sep);
    var (g, w) := PutInFront(c, gaps, words, sep);
    if sep(c) {
      assert IsGap(g[0], sep);
    } else if gaps[0] == "" && words != [] {
      assert IsWord(words[0], sep) && IsWord(w[0], sep);
    } else {
      assert IsGap("", sep) && IsWord([c], sep);
    }
    hide IsGap, IsWord;
  }

  lemma PutInFrontWeaves(c: char, gaps: seq<string>, words: seq<string>, sep: Filler)
    requires |gaps| == |words| + 1
    ensures var (g, w) := PutInFront(c, gaps, words, sep); Weave(g, w) == [c] + Weave(gaps, words)
  {
    var (g, w) := PutInFront(c, gaps, words, sep);
    WeaveStep(gaps, words);
    WeaveStep(g, w);
    hide Weave;
    if sep(c) {
      assert g[1..] == gaps[1..] && g[0] == [c] + gaps[0];
      if words != [] {
        Regroup([c], gaps[0], words[0] + Weave(gaps[1..], words[1..]));
      }
    } else if gaps[0] == "" && words != [] {
      assert w[1..] == words[1..] && w[0] == [c] + words[0];
      var rest := Weave(gaps[1..], words[1..]);
      Regroup([c], words[0], rest);
      assert "" + (words[0] + rest) == words[0] + rest && "" + (w[0] + rest) == w[0] + rest;
    } else {
      assert g[1..] == gaps && w[1..] == words;
      assert "" + ([c] + Weave(gaps, words)) == [c] + Weave(gaps, words);
    }
  }

  lemma Regroup(a: string, b: string, c: string)
    ensures a + b + c == a + (b + c)
  {}

  /** Every text is spaced words. */
  lemma {:induction false} CutWords(s: string, sep: Filler) returns (gaps: seq<string>, words: seq<string>)
    ensures Spaced(gaps, words, sep) && Weave(gaps, words) == s
    decreases |s|
  {
    hide Spaced, Weave;
    if s == "" {
      gaps, words := [""], [];
      NoWords(sep);
    } else {
      var g, w := CutWords(s[1..], sep);
      assert |g| == |w| + 1 by { SpacedLengths(g, w, sep); }
      PutInFrontSpaced(s[0], g, w, sep);
      PutInFrontWeaves(s[0], g, w, sep);
      var r := PutInFront(s[0], g, w, sep);
      gaps, words := r.0, r.1;
      assert s == [s[0]] + s[1..];
    }
  }

  lemma NoWords(sep: Filler)
    ensures Spaced([""], [], sep) && Weave([""], []) == ""
  {}

  lemma SpacedLengths(gaps: seq<string>, words: seq<string>, sep: Filler)
    requires Spaced(gaps, words, sep)
    ensures |gaps| == |words| + 1
  {}

  // ----------------------------------------------------------------------------- finding the words

  function Space(): Filler { c => IsSpace(c) }

  /** The runs of other than white space, the first of them continuing `cur`. */
  function Words(s: string, cur: string): seq<string>
    decreases |s|
  {
    if s == "" || IsSpace(s[0]) then
      (if cur == "" then [] else [cur]) + if s == "" then [] else Words(s[1..], "")
    else Words(s[1..], cur + [s[0]])
  }

  lemma {:induction false} WordsGap(g: string, rest: string)
    requires IsGap(g, Space())
    ensures Words(g + rest, "") == Words(rest, "")
    decreases |g|
  {
    hide IsSpace;
    if g == "" {
      assert g + rest == rest;
    } else {
      assert g[0] in g && (g + rest)[1..] == g[1..] + rest;
      WordsGap(g[1..], rest);
    }
  }

  lemma {:induction false} WordsWord(w: string, rest: string, cur: string)
    requires forall c :: c in w ==> !IsSpace(c)
    ensures Words(w + rest, cur) == Words(rest, cur + w)
    decreases |w|
  {
    hide IsSpace;
    if w == "" {
      assert w + rest == rest && cur + w == cur;
    } else {
      assert w[0] in w && (w + rest)[1..] == w[1..] + rest && cur + [w[0]] + w[1..] == cur + w;
      WordsWord(w[1..], rest, cur + [w[0]]);
    }
  }

  lemma WordsEnd(s: string, cur: string)
    requires Ends(s, Space()) && cur != ""
    ensures Words(s, cur) == [cur] + Words(s, "")
  {
    hide IsSpace;
  }

  lemma {:induction false} WordsOfWeave(gaps: seq<string>, words: seq<string>)
    requires Spaced(gaps, words, Space())
    ensures Words(Weave(gaps, words), "") == words
    decreases |words|
  {
    hide Spaced, Words, Weave, IsGap, IsWord, Ends;
    SpacedLengths(gaps, words, Space());
    WeaveStep(gaps, words);
    if words == [] {
      OnlyGap(gaps, Space());
      WordsGap(gaps[0], "");
      assert gaps[0] + "" == gaps[0];
      NothingIn();
    } else {
      SpacedTail(gaps, words, Space());
      var rest := Weave(gaps[1..], words[1..]);
      WordsGap(gaps[0], words[0] + rest);
      NoSpaceIn(words[0]);
      WordsWord(words[0], rest, "");
      assert "" + words[0] == words[0];
      BehindWord(gaps[1..], words[1..], Space());
      WordsEnd(rest, words[0]);
      WordsOfWeave(gaps[1..], words[1..]);
    }
  }

  lemma NothingIn()
    ensures Words("", "") == []
  {}

  lemma OnlyGap(gaps: seq<string>, sep: Filler)
    requires Spaced(gaps, [], sep)
    ensures IsGap(gaps[0], sep)
  {
    hide IsGap;
  }

  lemma NoSpaceIn(w: string)
    requires IsWord(w, Space())
    ensures w != "" && forall c :: c in w ==> !IsSpace(c)
  {}

  /** The words found are the words of the text, and a text has no others. */
  lemma WordsIff(s: string, words: seq<string>)
    ensures HasWords(s, words, Space()) <==> words == Words(s, "")
  {
    hide Weave, Words, IsGap, IsWord;
    var g, w := CutWords(s, Space());
    WordsOfWeave(g, w);
    if HasWords(s, words, Space()) {
      var gaps :| Spaced(gaps, words, Space()) && s == Weave(gaps, words);
      WordsOfWeave(gaps, words);
    }
  }

  // ------------------------------------------------------------------ every gap as one character

  /** A gap as it shows when gaps are shortened to `c`. */
  function Short(g: string, c: char): string { if g == "" then "" else [c] }

  /** The words with one `c` for every gap. */
  function Shortened(gaps: seq<string>, words: seq<string>, c: char): string
    requires |gaps| == |words| + 1
  {
    if words == [] then Short(gaps[0], c)
    else Short(gaps[0], c) + (Join(words, [c]) + Short(gaps[|words|], c))
  }

  lemma ShortenedStep(gaps: seq<string>, words: seq<string>, sep: Filler, c: char)
    requires Spaced(gaps, words, sep) && words != []
    ensures Shortened(gaps, words, c) ==
      Short(gaps[0], c) + (words[0] + Shortened(gaps[1..], words[1..], c))
  {
    hide IsGap, IsWord, Join;
    var rest := words[1..];
    assert words == [words[0]] + rest && gaps[1..][|rest|] == gaps[|words|];
    if rest == [] {
      assert words == [words[0]];
      JoinOne(words[0], [c]);
    } else {
      JoinCons(words[0], rest, [c]);
      assert gaps[1] != "" && gaps[1..][0] == gaps[1];
      var j, last := Join(rest, [c]), Short(gaps[|words|], c);
      assert words[0] + [c] + j + last == words[0] + ([c] + (j + last));
    }
  }
}
