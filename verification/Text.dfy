/** Strings as the program's JavaScript runtime sees them: occurrence, `indexOf`, `split` and `join`. */
module Text {

  /** `pat` occurs in `s` at index `i`. */
  predicate At(s: string, pat: string, i: int) {
    0 <= i && i + |pat| <= |s| && s[i..i + |pat|] == pat
  }

  ghost predicate Occurs(s: string, pat: string) {
    exists i :: At(s, pat, i)
  }

  /** Length of the text before the first occurrence of `pat`, or -1. */
  function IndexOf(s: string, pat: string): (r: int)
    ensures r >= -1
    ensures r < 0 ==> forall i :: !At(s, pat, i)
    ensures r >= 0 ==> At(s, pat, r)
    ensures forall i :: 0 <= i < r ==> !At(s, pat, i)
  {
    if |s| < |pat| then -1
    else if s[..|pat|] == pat then 0
    else if s == "" then -1
    else
      AtTail(s, pat);
      var r := IndexOf(s[1..], pat);
      if r < 0 then -1 else r + 1
  }

  /** Occurrences past the first character are the occurrences in the tail. */
  lemma AtTail(s: string, pat: string)
    requires s != ""
    ensures forall i :: 1 <= i ==> (At(s, pat, i) <==> At(s[1..], pat, i - 1))
  {
    forall i | 1 <= i ensures At(s, pat, i) <==> At(s[1..], pat, i - 1) {
      if i + |pat| <= |s| {
        SliceOfSlice(s, 1, |s|, i - 1, i - 1 + |pat|);
        assert s[1..|s|] == s[1..];
      }
    }
  }

  /** `s.split(sep)` for a non-empty separator: the pieces between the leftmost non-overlapping occurrences. */
  function Split(s: string, sep: string): (parts: seq<string>)
    requires sep != ""
    ensures parts != []
    decreases |s|
  {
    var i := IndexOf(s, sep);
    if i < 0 then [s] else [s[..i]] + Split(s[i + |sep|..], sep)
  }

  function Join(parts: seq<string>, sep: string): string {
    if parts == [] then ""
    else if |parts| == 1 then parts[0]
    else parts[0] + sep + Join(parts[1..], sep)
  }

  /** Number of leftmost non-overlapping occurrences. */
  function Count(s: string, sep: string): nat
    requires sep != ""
  {
    |Split(s, sep)| - 1
  }

  lemma CutAround(s: string, sep: string, i: int)
    requires At(s, sep, i)
    ensures s == s[..i] + sep + s[i + |sep|..]
  {}

  /** One cut at the first separator. */
  lemma SplitStep(s: string, sep: string)
    requires sep != ""
    ensures var i := IndexOf(s, sep);
      if i < 0 then Split(s, sep) == [s]
      else
        var rest := s[i + |sep|..];
        Split(s, sep) == [s[..i]] + Split(rest, sep) && s == s[..i] + sep + rest
  {
    hide IndexOf;
    if IndexOf(s, sep) >= 0 { CutAround(s, sep, IndexOf(s, sep)); }
  }

  lemma JoinCons(first: string, rest: seq<string>, sep: string)
    requires rest != []
    ensures Join([first] + rest, sep) == first + sep + Join(rest, sep)
  {
    assert ([first] + rest)[1..] == rest;
  }

  lemma {:induction false} JoinSplit(s: string, sep: string)
    requires sep != ""
    ensures Join(Split(s, sep), sep) == s
    decreases |s|
  {
    hide IndexOf, Split, Join;
    SplitStep(s, sep);
    var i := IndexOf(s, sep);
    if i >= 0 {
      var rest := s[i + |sep|..];
      JoinSplit(rest, sep);
      JoinCons(s[..i], Split(rest, sep), sep);
    } else {
      JoinOne(s, sep);
    }
  }

  lemma JoinOne(part: string, sep: string)
    ensures Join([part], sep) == part
  {}

  lemma {:induction false} SplitPiecesFree(s: string, sep: string)
    requires sep != ""
    ensures forall p :: p in Split(s, sep) ==> !Occurs(p, sep)
    decreases |s|
  {
    var i := IndexOf(s, sep);
    if i >= 0 {
      SplitPiecesFree(s[i + |sep|..], sep);
      if Occurs(s[..i], sep) {
        var k :| At(s[..i], sep, k);
        assert s[..i][k..k + |sep|] == s[k..k + |sep|];
        assert At(s, sep, k);
      }
    }
  }

  /** Behind every piece but the last, the separator stands at its first place. */
  ghost predicate Leftmost(parts: seq<string>, sep: string) {
    forall k :: 0 <= k < |parts| - 1 ==> IndexOf(parts[k] + sep, sep) == |parts[k]|
  }

  lemma AtPrefix(s: string, n: nat, sep: string)
    requires n <= |s|
    ensures forall j :: j + |sep| <= n ==> (At(s[..n], sep, j) <==> At(s, sep, j))
  {
    forall j | 0 <= j && j + |sep| <= n ensures At(s[..n], sep, j) <==> At(s, sep, j) {
      assert s[..n][j..j + |sep|] == s[j..j + |sep|];
    }
  }

  lemma CutBehind(s: string, sep: string, i: int)
    requires At(s, sep, i)
    ensures s[..i] + sep == s[..i + |sep|]
  {}

  lemma IndexWithin(s: string, sep: string, i: nat)
    requires IndexOf(s, sep) == i
    ensures i + |sep| <= |s| && IndexOf(s[..i] + sep, sep) == i
  {
    CutBehind(s, sep, i);
    AtPrefix(s, i + |sep|, sep);
    SameIndex(s, s[..i + |sep|], sep, i);
  }

  lemma SameIndex(s: string, t: string, sep: string, i: nat)
    requires IndexOf(s, sep) == i
    requires forall j :: 0 <= j <= i ==> (At(t, sep, j) <==> At(s, sep, j))
    ensures IndexOf(t, sep) == i
  {
    hide At, IndexOf;
    FirstIs(t, sep, i);
  }

  lemma {:induction false} SplitLeftmost(s: string, sep: string)
    requires sep != ""
    ensures Leftmost(Split(s, sep), sep)
    decreases |s|
  {
    hide IndexOf, At;
    var i := IndexOf(s, sep);
    if i >= 0 {
      IndexWithin(s, sep, i);
      var rest := Split(s[i + |sep|..], sep);
      SplitLeftmost(s[i + |sep|..], sep);
      var parts := Split(s, sep);
      assert parts[0] == s[..i] && parts[1..] == rest;
      forall k | 0 <= k < |parts| - 1 ensures IndexOf(parts[k] + sep, sep) == |parts[k]| {
        if k > 0 { assert parts[k] == rest[k - 1]; }
      }
    }
  }

  lemma IndexInFront(p: string, sep: string, rest: string)
    requires IndexOf(p + sep, sep) == |p|
    ensures IndexOf(p + sep + rest, sep) == |p|
  {
    var s, n := p + sep + rest, |p + sep|;
    assert s[..n] == p + sep;
    AtMiddle(p, sep, rest);
    AtPrefix(s, n, sep);
    hide IndexOf, At;
    FirstIs(s, sep, |p|);
  }

  /** Only one way of cutting a text is leftmost and leaves no separator behind: `split`. */
  lemma {:induction false} LeftmostIsSplit(parts: seq<string>, sep: string)
    requires sep != "" && parts != [] && Leftmost(parts, sep) && !Occurs(parts[|parts| - 1], sep)
    ensures Split(Join(parts, sep), sep) == parts
    decreases |parts|
  {
    hide IndexOf, Split, Join, Occurs;
    var first, others := parts[0], parts[1..];
    assert parts == [first] + others;
    if others == [] {
      assert parts == [first];
      NeverFound(first, sep);
      SplitStep(first, sep);
      JoinOne(first, sep);
    } else {
      LeftmostTail(parts, sep);
      hide Leftmost;
      LeftmostIsSplit(others, sep);
      JoinCons(first, others, sep);
      var rest := Join(others, sep);
      IndexInFront(first, sep, rest);
      SplitStep(first + sep + rest, sep);
      CutBack(first, sep, rest);
    }
  }

  lemma NeverFound(s: string, sep: string)
    requires !Occurs(s, sep)
    ensures IndexOf(s, sep) < 0
  {
    hide IndexOf;
    assert IndexOf(s, sep) >= 0 ==> At(s, sep, IndexOf(s, sep));
  }

  lemma LeftmostTail(parts: seq<string>, sep: string)
    requires |parts| > 1 && Leftmost(parts, sep)
    ensures Leftmost(parts[1..], sep) && IndexOf(parts[0] + sep, sep) == |parts[0]|
  {
    hide IndexOf;
    assert forall k :: 0 <= k < |parts[1..]| ==> parts[1..][k] == parts[k + 1];
  }

  lemma CutBack(a: string, sep: string, b: string)
    ensures (a + sep + b)[..|a|] == a && (a + sep + b)[|a| + |sep|..] == b
  {}

  /** A piece of a split is a stretch of the text that was split. */
  lemma {:induction false} SplitPiecesOccur(s: string, sep: string)
    requires sep != ""
    ensures forall p :: p in Split(s, sep) ==> Occurs(s, p)
    decreases |s|
  {
    hide Split, IndexOf;
    SplitStep(s, sep);
    var i := IndexOf(s, sep);
    if i < 0 {
      assert At(s, s, 0);
    } else {
      var rest := s[i + |sep|..];
      SplitPiecesOccur(rest, sep);
      assert At(s, s[..i], 0) && At(s, rest, i + |sep|);
      forall p | p in Split(rest, sep) ensures Occurs(s, p) {
        OccursTrans(s, rest, p);
      }
    }
  }

  lemma OccursTrans(s: string, m: string, p: string)
    requires Occurs(s, m) && Occurs(m, p)
    ensures Occurs(s, p)
  {
    var i :| At(s, m, i);
    var k :| At(m, p, k);
    AtInside(s, m, p, i, k);
  }

  lemma AtInside(s: string, m: string, p: string, i: int, k: int)
    requires At(s, m, i) && At(m, p, k)
    ensures At(s, p, i + k)
  {
    SliceOfSlice(s, i, i + |m|, k, k + |p|);
  }

  lemma TooShort(s: string, p: string)
    requires |s| < |p|
    ensures IndexOf(s, p) < 0
  {}

  lemma FirstIs(s: string, p: string, n: nat)
    requires At(s, p, n) && forall j :: 0 <= j < n ==> !At(s, p, j)
    ensures IndexOf(s, p) == n
  {
    hide At;
  }

  lemma AtMiddle(a: string, p: string, b: string)
    ensures At(a + p + b, p, |a|)
  {
    assert (a + p + b)[|a|..|a| + |p|] == p;
  }

  lemma SliceOfSlice<T>(s: seq<T>, a: nat, b: nat, c: nat, d: nat)
    requires a <= b <= |s| && c <= d <= b - a
    ensures s[a..b][c..d] == s[a + c..a + d]
  {
    var x, y := s[a..b][c..d], s[a + c..a + d];
    assert |x| == |y|;
    assert forall n :: 0 <= n < |x| ==> x[n] == y[n];
  }

  lemma CountZero(s: string, sep: string)
    requires sep != ""
    ensures Count(s, sep) == 0 <==> !Occurs(s, sep)
  {
    if Count(s, sep) == 0 {
      assert IndexOf(s, sep) < 0;
    } else {
      assert At(s, sep, IndexOf(s, sep));
    }
  }

  /** Splitting on one character undoes joining with it, for pieces that do not hold it. */
  lemma {:induction false} SplitJoin(parts: seq<string>, c: char)
    requires parts != []
    requires forall p :: p in parts ==> c !in p
    ensures Split(Join(parts, [c]), [c]) == parts
    decreases |parts|
  {
    var s := Join(parts, [c]);
    if |parts| == 1 {
      assert s == parts[0];
      NoChar(s, c);
    } else {
      var p := parts[0];
      var rest := Join(parts[1..], [c]);
      SplitJoin(parts[1..], c);
      assert s == p + [c] + rest;
      IndexOfChar(p, c, rest);
      assert s[|p| + 1..] == rest;
      assert s[..|p|] == p;
    }
  }

  lemma NoChar(s: string, c: char)
    requires c !in s
    ensures !Occurs(s, [c])
  {
    forall k | 0 <= k < |s| ensures !At(s, [c], k) {
      assert s[k..k + 1] == [s[k]];
    }
  }

  lemma IndexOfChar(p: string, c: char, rest: string)
    requires c !in p
    ensures IndexOf(p + [c] + rest, [c]) == |p|
  {
    var s := p + [c] + rest;
    assert At(s, [c], |p|) by { assert s[|p|..|p| + 1] == [c]; }
    var i := IndexOf(s, [c]);
    assert s[i] == s[i..i + 1][0];
  }

  lemma LinesHoldNoNewline(s: string)
    ensures forall l :: l in Split(s, "\n") ==> '\n' !in l
  {
    SplitPiecesFree(s, "\n");
    hide Split;
    forall l | l in Split(s, "\n") ensures '\n' !in l {
      forall k | 0 <= k < |l| ensures l[k] != '\n' {
        assert !At(l, "\n", k) && l[k..k + 1] == [l[k]];
      }
    }
  }

  lemma LinesConcat(a: string, b: string)
    ensures Split(a + "\n" + b, "\n") == Split(a, "\n") + Split(b, "\n")
  {
    var x, y := Split(a, "\n"), Split(b, "\n");
    JoinSplit(a, "\n");
    JoinSplit(b, "\n");
    LinesHoldNoNewline(a);
    LinesHoldNoNewline(b);
    hide Split;
    JoinConcat(x, y);
    SplitJoin(x + y, '\n');
  }

  lemma {:induction false} JoinConcat(x: seq<string>, y: seq<string>)
    requires x != [] && y != []
    ensures Join(x + y, "\n") == Join(x, "\n") + "\n" + Join(y, "\n")
    decreases |x|
  {
    if |x| == 1 {
      assert (x + y)[1..] == y;
    } else {
      JoinConcat(x[1..], y);
      assert (x + y)[1..] == x[1..] + y;
    }
  }

  // ------------------------------------------------------------------------------ white space

  /** The characters that `trim` removes and `\s` matches. */
  predicate IsSpace(c: char) {
    c in " \t\n\r" || c == '\U{0B}' || c == '\U{0C}' || c == '\U{A0}' || c == '\U{1680}'
    || '\U{2000}' <= c <= '\U{200A}' || c == '\U{2028}' || c == '\U{2029}' || c == '\U{202F}'
    || c == '\U{205F}' || c == '\U{3000}' || c == '\U{FEFF}'
  }

  function TrimStart(s: string): (r: string)
    ensures r == "" || !IsSpace(r[0])
    ensures |r| <= |s| && s[|s| - |r|..] == r
  {
    if s != "" && IsSpace(s[0]) then TrimStart(s[1..]) else s
  }

  function TrimEnd(s: string): (r: string)
    ensures r == "" || !IsSpace(r[|r| - 1])
    ensures r <= s
  {
    if s != "" && IsSpace(s[|s| - 1]) then TrimEnd(s[..|s| - 1]) else s
  }

  function Trim(s: string): (r: string)
    ensures r == "" || (!IsSpace(r[0]) && !IsSpace(r[|r| - 1]))
    ensures |r| <= |s|
  {
    TrimEnd(TrimStart(s))
  }

  /** Nothing to trim. */
  lemma TrimSame(s: string)
    requires s != "" && !IsSpace(s[0]) && !IsSpace(s[|s| - 1])
    ensures Trim(s) == s
  {
    hide IsSpace;
    TrimStartSame(s);
    TrimEndSame(s);
    hide TrimStart, TrimEnd;
  }

  lemma TrimStartSame(s: string)
    requires s != "" && !IsSpace(s[0])
    ensures TrimStart(s) == s
  {
    hide IsSpace;
  }

  lemma TrimEndSame(s: string)
    requires s != "" && !IsSpace(s[|s| - 1])
    ensures TrimEnd(s) == s
  {
    hide IsSpace;
  }

  lemma SpaceIsSpace()
    ensures IsSpace(' ')
  {}

  lemma SpaceBehind(a: string)
    requires IsSpace(' ')
    ensures TrimEnd(a + " ") == TrimEnd(a)
  {
    hide IsSpace;
    assert (a + " ")[..|a|] == a;
  }

  lemma SpaceBefore(a: string)
    requires IsSpace(' ')
    ensures TrimStart(" " + a) == TrimStart(a)
  {
    hide IsSpace;
    assert (" " + a)[1..] == a;
  }

  predicate Blank(s: string) {
    forall c :: c in s ==> IsSpace(c)
  }

  lemma TrimBlank(s: string)
    ensures Trim(s) == "" <==> Blank(s)
  {
    TrimStartBlank(s);
    TrimEndBlank(TrimStart(s));
    var t := TrimStart(s);
    assert t != "" ==> t[0] in t && t[0] == s[|s| - |t|..][0];
  }

  lemma {:induction false} TrimStartBlank(s: string)
    ensures TrimStart(s) == "" <==> Blank(s)
    decreases |s|
  {
    if s != "" {
      BlankCons(s[0], s[1..]);
      assert [s[0]] + s[1..] == s;
      if IsSpace(s[0]) { TrimStartBlank(s[1..]); }
    }
  }

  lemma FrontLonger(s: string, n: nat)
    requires n < |s|
    ensures s[..n + 1] == [s[0]] + s[1..][..n]
  {}

  lemma BlankNone(s: string)
    requires s == ""
    ensures Blank(s)
  {}

  lemma BlankCons(c: char, s: string)
    ensures Blank([c] + s) <==> IsSpace(c) && Blank(s)
  {
    assert ([c] + s)[0] in [c] + s;
    forall d | d in s ensures d in [c] + s {}
  }

  lemma BlankSnoc(s: string, c: char)
    ensures Blank(s + [c]) <==> IsSpace(c) && Blank(s)
  {
    assert (s + [c])[|s|] in s + [c];
    forall d | d in s ensures d in s + [c] {}
  }

  lemma {:induction false} TrimEndBlank(s: string)
    ensures TrimEnd(s) == "" <==> Blank(s)
    decreases |s|
  {
    if s != "" {
      var n := |s| - 1;
      BlankSnoc(s[..n], s[n]);
      assert s[..n] + [s[n]] == s;
      if IsSpace(s[n]) { TrimEndBlank(s[..n]); }
    }
  }

  /** Trimming takes white space from both ends and nothing else. */
  lemma TrimTakesSpace(s: string) returns (front: string, back: string)
    ensures s == front + Trim(s) + back && Blank(front) && Blank(back)
  {
    hide IsSpace, TrimStart, TrimEnd, Blank;
    var t := TrimStart(s);
    front, back := s[..|s| - |t|], t[|TrimEnd(t)|..];
    StartTakesSpace(s);
    EndTakesSpace(t);
    hide *;
    BackTogether(s, t, TrimEnd(t));
  }

  lemma BackTogether(s: string, t: string, u: string)
    requires |t| <= |s| && s[|s| - |t|..] == t && u <= t
    ensures s == s[..|s| - |t|] + u + t[|u|..]
  {}

  lemma {:induction false} StartTakesSpace(s: string)
    ensures Blank(s[..|s| - |TrimStart(s)|])
    decreases |s|
  {
    hide IsSpace, Blank;
    if s != "" && IsSpace(s[0]) {
      var t := s[1..];
      StartTakesSpace(t);
      assert TrimStart(s) == TrimStart(t);
      var n := |t| - |TrimStart(t)|;
      hide *;
      BlankCons(s[0], t[..n]);
      FrontLonger(s, n);
    } else {
      BlankNone(s[..0]);
    }
  }

  lemma {:induction false} EndTakesSpace(s: string)
    ensures Blank(s[|TrimEnd(s)|..])
    decreases |s|
  {
    hide IsSpace;
    if s != "" && IsSpace(s[|s| - 1]) {
      var n := |s| - 1;
      EndTakesSpace(s[..n]);
      assert s[|TrimEnd(s)|..] == s[..n][|TrimEnd(s)|..] + [s[n]];
      BlankSnoc(s[..n][|TrimEnd(s)|..], s[n]);
    }
  }

  lemma {:induction false} TrimStartGap(g: string, s: string)
    requires Blank(g)
    ensures TrimStart(g + s) == TrimStart(s)
    decreases |g|
  {
    hide IsSpace;
    if g == "" {
      assert g + s == s;
    } else {
      assert g[0] in g && (g + s)[1..] == g[1..] + s;
      TrimStartGap(g[1..], s);
    }
  }

  lemma {:induction false} TrimEndGap(s: string, g: string)
    requires Blank(g)
    ensures TrimEnd(s + g) == TrimEnd(s)
    decreases |g|
  {
    hide IsSpace;
    if g == "" {
      assert s + g == s;
    } else {
      var n := |g| - 1;
      assert g[n] in g && (s + g)[..|s + g| - 1] == s + g[..n];
      TrimEndGap(s, g[..n]);
    }
  }

  // ------------------------------------------------------------------------- what is kept of a sequence

  /** `at` lists, in order, the positions below `n` that are chosen. */
  ghost predicate Chosen(at: seq<nat>, n: nat, chosen: nat -> bool) {
    && (forall j, k :: 0 <= j < k < |at| ==> at[j] < at[k])
    && forall i: nat :: i in at <==> i < n && chosen(i)
  }

  function Shifted(at: seq<nat>): (r: seq<nat>)
    ensures |r| == |at| && forall k :: 0 <= k < |at| ==> r[k] == at[k] + 1
  {
    seq(|at|, k requires 0 <= k < |at| => at[k] + 1)
  }

  lemma ShiftedIn(at: seq<nat>, i: nat)
    ensures i in Shifted(at) <==> i > 0 && i - 1 in at
  {
    if i > 0 && i - 1 in at {
      var k :| 0 <= k < |at| && at[k] == i - 1;
      assert Shifted(at)[k] == i;
    }
  }

  /** One more position in front. */
  lemma ChosenLater(later: seq<nat>, n: nat, chosen: nat -> bool, chosen': nat -> bool)
    requires Chosen(later, n, chosen) && forall i: nat :: chosen'(i + 1) == chosen(i)
    ensures Chosen((if chosen'(0) then [0] else []) + Shifted(later), n + 1, chosen')
  {
    var first: seq<nat> := if chosen'(0) then [0] else [];
    var at := first + Shifted(later);
    forall i: nat ensures i in at <==> i < n + 1 && chosen'(i) {
      ShiftedIn(later, i);
      assert i in at <==> i in first || i in Shifted(later);
      if i > 0 { assert chosen'(i - 1 + 1) == chosen(i - 1); }
    }
  }

  /** One more position at the end. */
  lemma ChosenNext(at: seq<nat>, n: nat, chosen: nat -> bool)
    requires Chosen(at, n, chosen)
    ensures Chosen(at + (if chosen(n) then [n] else []), n + 1, chosen)
  {
    var last: seq<nat> := if chosen(n) then [n] else [];
    forall k | 0 <= k < |at| ensures at[k] < n { assert at[k] in at; }
    forall i: nat ensures i in at + last <==> i < n + 1 && chosen(i) {
      assert i in at + last <==> i in at || i in last;
    }
  }
}
