/** The translation of globs to regular expressions, and why the two accept the same paths. */
module GlobCompiler {
  import opened Text
  import opened Glob
  import opened GlobMeaning
  import opened RegExp

  // ------------------------------------------------------------------------------ translation

  /** The pattern of a glob with `k` behind it. */
  function Compile(g: Glob, k: Alternative): Alternative {
    match g
    case Nil => k
    case Cons(item, rest) => Then(CompileItem(item), Compile(rest, k))
  }

  function CompileItem(item: Item): Term {
    match item
    case Lit(c) => Term(Char(c), One)
    case Star => Term(NotSlash, ZeroOrMore)
    case DoubleStar => Term(Dot, ZeroOrMore)
    case Dirs => Term(Group(Only(SEGMENT)), ZeroOrMore)
    case AnyChar => Term(NotSlash, One)
    case Braces(alts) => Term(Group(CompileAlts(alts)), One)
  }

  /** One directory: `[^/]+/`. */
  const SEGMENT := Then(Term(NotSlash, OneOrMore), Then(Term(Char('/'), One), Done))

  function CompileAlts(alts: Alts): Disjunction {
    match alts
    case Last(g) => Only(Compile(g, Done))
    case More(g, rest) => Or(Compile(g, Done), CompileAlts(rest))
  }

  /** `(?:^|.*` followed by a slash and `)`: the start of the path or behind a slash. */
  const ANY_DEPTH := Term(Group(Or(Then(Term(Start, One), Done),
                                  Only(Then(Term(Dot, ZeroOrMore), Then(Term(Char('/'), One), Done))))), One)

  /** The whole pattern: anchored to the path when the glob text has a slash, else to a basename. */
  function GlobPattern(glob: string): Disjunction {
    var body := Compile(Parse(glob), Then(Term(End, One), Done));
    Only(Then(if '/' in glob then Term(Start, One) else ANY_DEPTH, body))
  }

  // ---------------------------------------------------------------------------- it means the same

  lemma {:induction false} RunOfNotSlash(s: string, i: int, j: int)
    ensures Repeats(NotSlash, s, i, j) <==> NoSlash(s, i, j)
    decreases j - i
  {
    if 0 <= i < j <= |s| {
      RunOfNotSlash(s, i + 1, j);
      assert MatchesAtom(NotSlash, s, i, i + 1) <==> s[i] != '/';
    }
  }

  lemma {:induction false} RunOfDot(s: string, i: int, j: int)
    ensures Repeats(Dot, s, i, j) <==> OneLine(s, i, j)
    decreases j - i
  {
    if 0 <= i < j <= |s| {
      RunOfDot(s, i + 1, j);
      assert MatchesAtom(Dot, s, i, i + 1) <==> !IsLineTerminator(s[i]);
    }
  }

  /** One directory: a non-empty run without slashes, and the slash behind it. */
  ghost predicate OneSegment(s: string, i: int, j: int) {
    0 <= i && i + 1 < j <= |s| && NoSlash(s, i, j - 1) && s[j - 1] == '/'
  }

  lemma SegmentIsDirectory(s: string, i: int, j: int)
    ensures MatchesAtom(Group(Only(SEGMENT)), s, i, j) <==> OneSegment(s, i, j)
  {
    var slash := Then(Term(Char('/'), One), Done);
    assert MatchesAtom(Group(Only(SEGMENT)), s, i, j) <==> Matches(SEGMENT, s, i, j);
    forall m ensures Matches(slash, s, m, j) <==> (0 <= m < |s| && j == m + 1 && s[m] == '/') {
      SlashAt(s, m, j);
    }
    forall m ensures MatchesTerm(Term(NotSlash, OneOrMore), s, i, m) <==> (i < m && NoSlash(s, i, m)) {
      PlusNotSlash(s, i, m);
    }
    if OneSegment(s, i, j) {
      assert MatchesTerm(Term(NotSlash, OneOrMore), s, i, j - 1) && Matches(slash, s, j - 1, j);
    }
  }

  lemma SlashAt(s: string, m: int, j: int)
    ensures Matches(Then(Term(Char('/'), One), Done), s, m, j) <==> (0 <= m < |s| && j == m + 1 && s[m] == '/')
  {
    var t := Term(Char('/'), One);
    assert forall n :: MatchesTerm(t, s, m, n) <==> MatchesAtom(Char('/'), s, m, n);
    if 0 <= m < |s| && j == m + 1 && s[m] == '/' {
      assert MatchesTerm(t, s, m, j) && Matches(Done, s, j, j);
    }
  }

  lemma PlusNotSlash(s: string, i: int, m: int)
    ensures MatchesTerm(Term(NotSlash, OneOrMore), s, i, m) <==> (i < m && NoSlash(s, i, m))
  {
    RunOfNotSlash(s, i + 1, m);
    if i < m && NoSlash(s, i, m) {
      assert MatchesAtom(NotSlash, s, i, i + 1) && Repeats(NotSlash, s, i + 1, m);
    }
  }

  /** Directories back to back are exactly the stretches of whole segments. */
  lemma {:induction false} RunOfSegments(s: string, i: int, j: int)
    ensures Repeats(Group(Only(SEGMENT)), s, i, j) <==> WholeSegments(s, i, j)
    decreases j - i
  {
    var a := Group(Only(SEGMENT));
    if 0 <= i < j <= |s| {
      forall m | i < m <= j
        ensures (MatchesAtom(a, s, i, m) && Repeats(a, s, m, j)) <==> (OneSegment(s, i, m) && WholeSegments(s, m, j))
      {
        hide *;
        SegmentIsDirectory(s, i, m);
        RunOfSegments(s, m, j);
      }
      assert Repeats(a, s, i, j) <==> exists m :: i < m <= j && MatchesAtom(a, s, i, m) && Repeats(a, s, m, j);
      hide Repeats, MatchesAtom;
      SegmentsSplit(s, i, j);
    }
  }

  lemma SegmentsSplit(s: string, i: int, j: int)
    requires 0 <= i < j <= |s|
    ensures WholeSegments(s, i, j) <==> exists m :: i < m <= j && OneSegment(s, i, m) && WholeSegments(s, m, j)
  {
    if WholeSegments(s, i, j) {
      var m := FirstSlash(s, i, j);
      assert OneSegment(s, i, m) && WholeSegments(s, m, j);
    }
    if m :| i < m <= j && OneSegment(s, i, m) && WholeSegments(s, m, j) {
      forall k | i < k < j ensures s[k - 1] != '/' || s[k] != '/' {}
    }
  }

  /** The end of the first segment. */
  lemma {:induction false} FirstSlash(s: string, i: int, j: int) returns (m: int)
    requires 0 <= i < j <= |s| && s[i] != '/' && s[j - 1] == '/'
    ensures i + 1 < m <= j && NoSlash(s, i, m - 1) && s[m - 1] == '/'
    decreases j - i
  {
    if s[i + 1] == '/' {
      m := i + 2;
    } else {
      m := FirstSlash(s, i + 1, j);
    }
  }

  lemma {:induction false} ItemCorrect(item: Item, s: string, i: int, j: int)
    ensures MatchesTerm(CompileItem(item), s, i, j) <==> AcceptsItem(item, s, i, j)
    decreases item, 0
  {
    match item {
      case Star => RunOfNotSlash(s, i, j);
      case DoubleStar => RunOfDot(s, i, j);
      case Dirs => RunOfSegments(s, i, j);
      case Braces(alts) => AltsCorrect(alts, s, i, j);
      case _ =>
    }
  }

  lemma {:induction false} AltsCorrect(alts: Alts, s: string, i: int, j: int)
    ensures MatchesAny(CompileAlts(alts), s, i, j) <==> AcceptsAlts(alts, s, i, j)
    decreases alts, 0
  {
    CompileCorrect(alts.g, Done, s, i, j);
    AcceptsThenDone(alts.g, s, i, j);
    if alts.More? {
      AltsCorrect(alts.rest, s, i, j);
    }
  }

  lemma AcceptsThenDone(g: Glob, s: string, i: int, j: int)
    ensures Followed(g, Done, s, i, j) <==> Accepts(g, s, i, j)
  {
    if Accepts(g, s, i, j) {
      AcceptedBounds(g, s, i, j);
      assert Matches(Done, s, j, j);
    }
  }

  /** The glob accepts a first part of the stretch and `k` matches what is left. */
  ghost predicate Followed(g: Glob, k: Alternative, s: string, i: int, j: int) {
    exists m :: Accepts(g, s, i, m) && Matches(k, s, m, j)
  }

  /** A compiled glob matches what the glob accepts, followed by what the rest of the pattern matches. */
  lemma {:induction false} CompileCorrect(g: Glob, k: Alternative, s: string, i: int, j: int)
    ensures Matches(Compile(g, k), s, i, j) <==> Followed(g, k, s, i, j)
    decreases g, 0
  {
    match g {
      case Nil =>
        if Matches(k, s, i, j) {
          MatchedBounds(k, s, i, j);
          assert Accepts(Nil, s, i, i);
        }
      case Cons(item, rest) =>
        forall m ensures MatchesTerm(CompileItem(item), s, i, m) <==> AcceptsItem(item, s, i, m) {
          ItemCorrect(item, s, i, m);
        }
        forall m ensures Matches(Compile(rest, k), s, m, j) <==> Followed(rest, k, s, m, j) {
          CompileCorrect(rest, k, s, m, j);
        }
        ConsCorrect(item, rest, k, s, i, j);
    }
  }

  lemma ConsCorrect(item: Item, rest: Glob, k: Alternative, s: string, i: int, j: int)
    requires forall m :: MatchesTerm(CompileItem(item), s, i, m) <==> AcceptsItem(item, s, i, m)
    requires forall m :: Matches(Compile(rest, k), s, m, j) <==> Followed(rest, k, s, m, j)
    ensures Matches(Compile(Cons(item, rest), k), s, i, j) <==> Followed(Cons(item, rest), k, s, i, j)
  {
    hide MatchesAtom, Repeats, AcceptsAlts, CompileAlts, MatchesAny, NoSlash, OneLine, WholeSegments;
    var g, t := Cons(item, rest), CompileItem(item);
    assert Compile(g, k) == Then(t, Compile(rest, k));
    assert Matches(Compile(g, k), s, i, j) <==>
      exists m :: MatchesTerm(t, s, i, m) && Matches(Compile(rest, k), s, m, j);
    FollowedCons(item, rest, k, s, i, j);
    hide *;
    if m :| MatchesTerm(t, s, i, m) && Matches(Compile(rest, k), s, m, j) {
      assert AcceptsItem(item, s, i, m) && Followed(rest, k, s, m, j);
    }
    if m :| AcceptsItem(item, s, i, m) && Followed(rest, k, s, m, j) {
      assert MatchesTerm(t, s, i, m) && Matches(Compile(rest, k), s, m, j);
    }
  }

  /** An item in front is passed in front. */
  lemma FollowedCons(item: Item, rest: Glob, k: Alternative, s: string, i: int, j: int)
    ensures Followed(Cons(item, rest), k, s, i, j) <==>
      exists m :: AcceptsItem(item, s, i, m) && Followed(rest, k, s, m, j)
  {
    hide AcceptsAlts, NoSlash, OneLine, WholeSegments, Matches;
    var g := Cons(item, rest);
    assert forall n :: Accepts(g, s, i, n) <==> exists m :: AcceptsItem(item, s, i, m) && Accepts(rest, s, m, n);
    assert Followed(g, k, s, i, j) <==> exists n :: Accepts(g, s, i, n) && Matches(k, s, n, j);
    assert forall m :: Followed(rest, k, s, m, j) <==> exists n :: Accepts(rest, s, m, n) && Matches(k, s, n, j);
    hide *;
    if m :| AcceptsItem(item, s, i, m) && Followed(rest, k, s, m, j) {
      var n :| Accepts(rest, s, m, n) && Matches(k, s, n, j);
      assert Accepts(g, s, i, n);
    }
    if n :| Accepts(g, s, i, n) && Matches(k, s, n, j) {
      var m :| AcceptsItem(item, s, i, m) && Accepts(rest, s, m, n);
    }
  }

  lemma {:induction false} MatchedBounds(a: Alternative, s: string, i: int, j: int)
    requires Matches(a, s, i, j)
    ensures 0 <= i <= j <= |s|
    decreases a, 0
  {
    if a.Then? {
      var m :| MatchesTerm(a.t, s, i, m) && Matches(a.rest, s, m, j);
      TermBounds(a.t, s, i, m);
      MatchedBounds(a.rest, s, m, j);
    }
  }

  lemma {:induction false} TermBounds(t: Term, s: string, i: int, j: int)
    requires MatchesTerm(t, s, i, j)
    ensures 0 <= i <= j <= |s|
    decreases t, 0
  {
    match t.q {
      case One => AtomBounds(t.atom, s, i, j);
      case ZeroOrMore =>
      case OneOrMore =>
        var m :| MatchesAtom(t.atom, s, i, m) && Repeats(t.atom, s, m, j);
        AtomBounds(t.atom, s, i, m);
    }
  }

  lemma {:induction false} AtomBounds(a: Atom, s: string, i: int, j: int)
    requires MatchesAtom(a, s, i, j)
    ensures 0 <= i <= j <= |s|
    decreases a, 0
  {
    if a.Group? { AnyBounds(a.d, s, i, j); }
  }

  lemma {:induction false} AnyBounds(d: Disjunction, s: string, i: int, j: int)
    requires MatchesAny(d, s, i, j)
    ensures 0 <= i <= j <= |s|
    decreases d, 0
  {
    if Matches(d.s, s, i, j) {
      MatchedBounds(d.s, s, i, j);
    } else {
      AnyBounds(d.rest, s, i, j);
    }
  }

  // -------------------------------------------------------------------------- the whole pattern

  /** Where a glob may start to be read in a path: at the front, or behind a slash when it has none. */
  ghost predicate StartsAt(glob: string, path: string, m: int) {
    0 <= m <= |path| && (m == 0 || ('/' !in glob && path[m - 1] == '/'))
  }

  /** The path passes the regular expression exactly when the glob accepts it to its end. */
  lemma PatternCorrect(glob: string, path: string)
    ensures Test(GlobPattern(glob), path) <==>
      exists m :: StartsAt(glob, path, m) && Accepts(Parse(glob), path, m, |path|)
  {
    var g, k := Parse(glob), Then(Term(End, One), Done);
    var first := if '/' in glob then Term(Start, One) else ANY_DEPTH;
    var body := Compile(g, k);
    forall m, j ensures Matches(body, path, m, j) <==> (j == |path| && Accepts(g, path, m, |path|)) {
      CompileCorrect(g, k, path, m, j);
      EndsThere(g, path, m, j);
    }
    forall m ensures Reaches(first, path, m) <==> StartsAt(glob, path, m) {
      if '/' in glob { StartAnchor(path, m); } else { AnyDepthAnchor(path, m); }
    }
    PatternUnfold(first, body, path);
    assert GlobPattern(glob) == Only(Then(first, body));
    assert forall m :: Runs(body, path, m) <==> exists j :: Matches(body, path, m, j);
    hide *;
    forall m ensures Runs(body, path, m) <==> Accepts(g, path, m, |path|) {
      if Accepts(g, path, m, |path|) { assert Matches(body, path, m, |path|); }
    }
  }

  /** The path passes exactly when the glob's text stands for it, from one of the starts to its end. */
  lemma PatternMeans(glob: string, path: string)
    ensures Test(GlobPattern(glob), path) <==> exists m :: StartsAt(glob, path, m) && Means(glob, path, m, |path|)
  {
    hide GlobPattern, Test, Accepts, Means, Parse;
    PatternCorrect(glob, path);
    forall m {:trigger StartsAt(glob, path, m)}
      ensures Means(glob, path, m, |path|) <==> Accepts(Parse(glob), path, m, |path|)
    {
      MeansIff(glob, path, m, |path|);
    }
  }

  /** A path passes `pre{a,b,…}rest` exactly when it is a stretch for `pre`, one for any alternate, one for `rest`. */
  lemma BracesPass(pre: string, parts: seq<string>, rest: string, path: string)
    requires PlainFront(pre) && parts != [] && forall p :: p in parts ==> Alternate(p)
    ensures var glob := pre + ("{" + Join(parts, ",") + "}" + rest);
      Test(GlobPattern(glob), path) <==> exists i, l ::
        && StartsAt(glob, path, i) && Means(pre, path, i, l) && AlternateThen(parts, rest, path, l, |path|)
  {
    hide GlobPattern, Test, Means, Alternate, AlternateThen, Join;
    var braces := "{" + Join(parts, ",") + "}" + rest;
    var glob := pre + braces;
    PatternMeans(glob, path);
    forall i ensures Means(glob, path, i, |path|) <==> BackToBack(pre, braces, path, i, |path|) {
      FrontMeans(pre, braces, path, i, |path|);
    }
    forall l ensures Means(braces, path, l, |path|) <==> AlternateThen(parts, rest, path, l, |path|) {
      BracesMean(parts, rest, path, l, |path|);
    }
  }

  ghost predicate Reaches(first: Term, path: string, m: int) {
    exists i :: MatchesTerm(first, path, i, m)
  }

  ghost predicate Runs(body: Alternative, path: string, m: int) {
    exists j :: Matches(body, path, m, j)
  }

  lemma PatternUnfold(first: Term, body: Alternative, path: string)
    ensures Test(Only(Then(first, body)), path) <==> exists m :: Reaches(first, path, m) && Runs(body, path, m)
  {
    var d := Only(Then(first, body));
    assert forall i, j :: MatchesAny(d, path, i, j) <==> Matches(Then(first, body), path, i, j);
    if m :| Reaches(first, path, m) && Runs(body, path, m) {
      var i :| MatchesTerm(first, path, i, m);
      var j :| Matches(body, path, m, j);
      assert Matches(Then(first, body), path, i, j);
      assert MatchesAny(d, path, i, j);
    }
    if i, j :| MatchesAny(d, path, i, j) {
      assert Matches(Then(first, body), path, i, j);
      var m :| MatchesTerm(first, path, i, m) && Matches(body, path, m, j);
      assert Reaches(first, path, m) && Runs(body, path, m);
    }
  }

  lemma EndsThere(g: Glob, path: string, m: int, j: int)
    ensures Followed(g, Then(Term(End, One), Done), path, m, j) <==> (j == |path| && Accepts(g, path, m, |path|))
  {
    var t := Term(End, One);
    assert forall n :: MatchesTerm(t, path, n, n) <==> MatchesAtom(End, path, n, n);
    forall n ensures Matches(Then(t, Done), path, n, j) <==> n == j == |path| {
      if n == j == |path| {
        assert MatchesTerm(t, path, n, n) && Matches(Done, path, n, n);
      }
    }
  }

  lemma StartAnchor(path: string, m: int)
    ensures Reaches(Term(Start, One), path, m) <==> m == 0
  {
    assert forall i :: MatchesTerm(Term(Start, One), path, i, m) <==> MatchesAtom(Start, path, i, m);
    assert MatchesTerm(Term(Start, One), path, 0, 0);
  }

  lemma AnyDepthAnchor(path: string, m: int)
    ensures Reaches(ANY_DEPTH, path, m) <==> (m == 0 || (0 < m <= |path| && path[m - 1] == '/'))
  {
    var front := Then(Term(Start, One), Done);
    var slash := Then(Term(Char('/'), One), Done);
    var behind := Then(Term(Dot, ZeroOrMore), slash);
    forall i
      ensures MatchesTerm(ANY_DEPTH, path, i, m) <==> (Matches(front, path, i, m) || Matches(behind, path, i, m))
    {
      AnyDepthUnfold(path, i, m);
    }
    forall i ensures Matches(front, path, i, m) <==> i == m == 0 {
      FrontUnfold(path, i, m);
    }
    assert forall i :: Matches(behind, path, i, m) <==>
      exists n :: MatchesTerm(Term(Dot, ZeroOrMore), path, i, n) && Matches(slash, path, n, m);
    forall n ensures Matches(slash, path, n, m) <==> (0 <= n < |path| && m == n + 1 && path[n] == '/') {
      SlashAt(path, n, m);
    }
    if 0 < m <= |path| && path[m - 1] == '/' {
      assert Repeats(Dot, path, m - 1, m - 1);
      assert MatchesTerm(Term(Dot, ZeroOrMore), path, m - 1, m - 1);
      assert MatchesTerm(ANY_DEPTH, path, m - 1, m);
    }
    if m == 0 { assert MatchesTerm(ANY_DEPTH, path, 0, 0); }
  }

  lemma FrontUnfold(path: string, i: int, m: int)
    ensures Matches(Then(Term(Start, One), Done), path, i, m) <==> i == m == 0
  {
    var t := Term(Start, One);
    assert forall n :: MatchesTerm(t, path, i, n) <==> MatchesAtom(Start, path, i, n);
    if i == m == 0 {
      assert MatchesTerm(t, path, 0, 0) && Matches(Done, path, 0, 0);
    }
  }

  lemma AnyDepthUnfold(path: string, i: int, m: int)
    ensures MatchesTerm(ANY_DEPTH, path, i, m) <==>
      (Matches(Then(Term(Start, One), Done), path, i, m)
       || Matches(Then(Term(Dot, ZeroOrMore), Then(Term(Char('/'), One), Done)), path, i, m))
  {
    var d := ANY_DEPTH.atom.d;
    assert MatchesTerm(ANY_DEPTH, path, i, m) <==> MatchesAtom(ANY_DEPTH.atom, path, i, m);
    assert MatchesAtom(ANY_DEPTH.atom, path, i, m) <==> MatchesAny(d, path, i, m);
    assert MatchesAny(d, path, i, m) <==> Matches(d.s, path, i, m) || MatchesAny(d.rest, path, i, m);
    assert MatchesAny(d.rest, path, i, m) <==> Matches(d.rest.s, path, i, m);
  }

  // ----------------------------------------------------------- slash-free globs and the basename

  /** No part of the glob can cross a slash. */
  predicate WithinSegment(g: Glob) {
    g.Cons? ==> WithinSegmentItem(g.item) && WithinSegment(g.rest)
  }

  predicate WithinSegmentItem(item: Item) {
    match item
    case Lit(c) => c != '/'
    case DoubleStar => false
    case Dirs => false
    case Braces(alts) => WithinSegmentAlts(alts)
    case _ => true
  }

  predicate WithinSegmentAlts(alts: Alts) {
    WithinSegment(alts.g) && (alts.More? ==> WithinSegmentAlts(alts.rest))
  }

  lemma {:induction false} StaysWithin(g: Glob, s: string, i: int, j: int)
    requires WithinSegment(g) && Accepts(g, s, i, j)
    ensures NoSlash(s, i, j)
    decreases g, 0
  {
    if g.Cons? {
      var m :| AcceptsItem(g.item, s, i, m) && Accepts(g.rest, s, m, j);
      ItemStaysWithin(g.item, s, i, m);
      StaysWithin(g.rest, s, m, j);
    }
  }

  lemma {:induction false} ItemStaysWithin(item: Item, s: string, i: int, j: int)
    requires WithinSegmentItem(item) && AcceptsItem(item, s, i, j)
    ensures NoSlash(s, i, j)
    decreases item, 0
  {
    if item.Braces? { AltsStayWithin(item.alts, s, i, j); }
  }

  lemma {:induction false} AltsStayWithin(alts: Alts, s: string, i: int, j: int)
    requires WithinSegmentAlts(alts) && AcceptsAlts(alts, s, i, j)
    ensures NoSlash(s, i, j)
    decreases alts, 0
  {
    if Accepts(alts.g, s, i, j) {
      StaysWithin(alts.g, s, i, j);
    } else {
      AltsStayWithin(alts.rest, s, i, j);
    }
  }

  /** Index of the basename: behind the last slash. */
  function BasenameStart(path: string): (b: nat)
    ensures b <= |path| && NoSlash(path, b, |path|) && (b == 0 || path[b - 1] == '/')
  {
    if path == "" || path[|path| - 1] == '/' then |path|
    else BasenameStart(path[..|path| - 1])
  }

  /** A glob without slashes and without `**` matches a path exactly when it accepts the basename. */
  lemma BasenameMatch(glob: string, path: string)
    requires '/' !in glob && WithinSegment(Parse(glob))
    ensures Test(GlobPattern(glob), path) <==> Means(glob, path, BasenameStart(path), |path|)
  {
    hide Parse, GlobPattern, Test, Accepts, Means, WithinSegment, BasenameStart;
    PatternCorrect(glob, path);
    var b := BasenameStart(path);
    MeansIff(glob, path, b, |path|);
    assert StartsAt(glob, path, b);
    forall m | StartsAt(glob, path, m) && Accepts(Parse(glob), path, m, |path|) ensures m == b {
      StaysWithin(Parse(glob), path, m, |path|);
      assert b > 0 ==> path[b - 1] == '/';
      assert m > 0 ==> path[m - 1] == '/';
    }
  }

  /** Two stars in a row somewhere in the text. */
  predicate HasDoubleStar(s: string) {
    |s| >= 2 && ("**" <= s || HasDoubleStar(s[1..]))
  }

  /** The text condition: no slash and no `**` anywhere keeps every part within one segment. */
  lemma {:induction false} TextWithinSegment(s: string)
    requires '/' !in s && !HasDoubleStar(s)
    ensures WithinSegment(Parse(s))
    decreases |s|, 0
  {
    if s != "" {
      var (item, n) := Head(s);
      NoDoubleStarSlice(s, n, |s|);
      assert s[n..|s|] == s[n..];
      TextWithinSegment(s[n..]);
      if item.Braces? {
        NoDoubleStarSlice(s, 1, n - 1);
        SplitTopPlain(s[1..n - 1], 0);
        AltsTextWithin(SplitTop(s[1..n - 1], 0));
      } else {
        DoubleStarAt(s);
        assert |s| > 1 && s[0] == '*' ==> s[0 + 1] != '*';
      }
    }
  }

  lemma {:induction false} AltsTextWithin(parts: seq<string>)
    requires parts != [] && forall p :: p in parts ==> '/' !in p && !HasDoubleStar(p)
    ensures WithinSegmentAlts(ParseAlts(parts))
    decreases Total(parts), 1 + |parts|
  {
    assert parts[0] in parts;
    TextWithinSegment(parts[0]);
    if |parts| > 1 { AltsTextWithin(parts[1..]); }
  }

  lemma {:induction false} DoubleStarAt(s: string)
    ensures HasDoubleStar(s) <==> exists k :: 0 <= k < |s| - 1 && s[k] == '*' && s[k + 1] == '*'
    decreases |s|
  {
    if |s| >= 2 {
      DoubleStarAt(s[1..]);
      assert "**" <= s <==> s[0] == '*' && s[0 + 1] == '*';
      if k :| 0 <= k < |s| - 1 && s[k] == '*' && s[k + 1] == '*' && k > 0 {
        assert s[1..][k - 1] == '*' && s[1..][k - 1 + 1] == '*';
      }
      if k :| 0 <= k < |s[1..]| - 1 && s[1..][k] == '*' && s[1..][k + 1] == '*' {
        assert s[k + 1] == '*' && s[k + 1 + 1] == '*';
      }
    }
  }

  lemma NoDoubleStarSlice(s: string, i: nat, j: nat)
    requires i <= j <= |s| && !HasDoubleStar(s) && '/' !in s
    ensures !HasDoubleStar(s[i..j]) && '/' !in s[i..j]
  {
    DoubleStarAt(s);
    DoubleStarAt(s[i..j]);
    forall k | 0 <= k < j - i - 1 ensures !(s[i..j][k] == '*' && s[i..j][k + 1] == '*') {
      assert !(s[i + k] == '*' && s[i + k + 1] == '*');
    }
  }

  /** The pieces of a text without slashes and double stars have none either. */
  lemma {:induction false} SplitTopPlain(s: string, depth: int)
    requires '/' !in s && !HasDoubleStar(s)
    ensures forall p :: p in SplitTop(s, depth) ==> '/' !in p && !HasDoubleStar(p)
    decreases |s|
  {
    SplitTopJoins(s, depth);
    PiecesPlain(SplitTop(s, depth));
  }

  lemma {:induction false} PiecesPlain(parts: seq<string>)
    requires '/' !in Join(parts, ",") && !HasDoubleStar(Join(parts, ","))
    ensures forall p :: p in parts ==> '/' !in p && !HasDoubleStar(p)
    decreases |parts|
  {
    if |parts| == 1 {
      assert Join(parts, ",") == parts[0];
    } else if |parts| > 1 {
      var s := Join(parts, ",");
      var n := |parts[0]|;
      NoDoubleStarSlice(s, 0, n);
      NoDoubleStarSlice(s, n + 1, |s|);
      assert s[0..n] == parts[0] && s[n + 1..|s|] == Join(parts[1..], ",");
      PiecesPlain(parts[1..]);
    }
  }

  // -------------------------------------------------------------------------- building the text

  /** The text appended for a glob. */
  function Body(g: Glob): string {
    PrintAlternative(Compile(g, Done))
  }

  lemma {:induction false} PrintCompile(g: Glob, k: Alternative)
    ensures PrintAlternative(Compile(g, k)) == Body(g) + PrintAlternative(k)
    decreases g
  {
    if g.Cons? {
      PrintCompile(g.rest, k);
      PrintCompile(g.rest, Done);
    }
  }

  /** Parsing leaves no literal star or question mark, so every pattern can be read back. */
  predicate Plain(g: Glob) {
    g.Cons? ==> PlainItem(g.item) && Plain(g.rest)
  }

  predicate PlainItem(item: Item) {
    match item
    case Lit(c) => c != '*' && c != '?'
    case Braces(alts) => PlainAlts(alts)
    case _ => true
  }

  predicate PlainAlts(alts: Alts) {
    Plain(alts.g) && (alts.More? ==> PlainAlts(alts.rest))
  }

  lemma {:induction false} ParsePlain(s: string)
    ensures Plain(Parse(s))
    decreases |s|, 0
  {
    if s != "" {
      var (item, n) := Head(s);
      if item.Braces? { ParseAltsPlain(SplitTop(s[1..n - 1], 0)); }
      ParsePlain(s[n..]);
    }
  }

  lemma {:induction false} ParseAltsPlain(parts: seq<string>)
    requires parts != []
    ensures PlainAlts(ParseAlts(parts))
    decreases Total(parts), 1 + |parts|
  {
    ParsePlain(parts[0]);
    if |parts| > 1 { ParseAltsPlain(parts[1..]); }
  }

  lemma {:induction false} PlainPrintable(g: Glob, k: Alternative)
    requires Plain(g) && PrintableAlternative(k)
    ensures PrintableAlternative(Compile(g, k))
    decreases g
  {
    if g.Cons? {
      if g.item.Braces? { PlainAltsPrintable(g.item.alts); }
      PlainPrintable(g.rest, k);
    }
  }

  lemma {:induction false} PlainAltsPrintable(alts: Alts)
    requires PlainAlts(alts)
    ensures Printable(CompileAlts(alts))
    decreases alts
  {
    PlainPrintable(alts.g, Done);
    if alts.More? { PlainAltsPrintable(alts.rest); }
  }

  /** The text for the first item of `s`. */
  function HeadText(s: string): string
    requires s != ""
  {
    PrintTerm(CompileItem(Head(s).0))
  }

  lemma BodyStep(s: string)
    requires s != ""
    ensures Body(Parse(s)) == HeadText(s) + Body(Parse(s[Head(s).1..]))
  {
    hide Head;
  }

  lemma StarText(s: string)
    requires s != "" && s[0] == '*'
    ensures HeadText(s) == (if Head(s).1 == 3 then "(?:[^/]+/)*" else if Head(s).1 == 2 then ".*" else "[^/]*")
    ensures Head(s).1 == if |s| > 1 && s[1] == '*' then if |s| > 2 && s[2] == '/' then 3 else 2 else 1
  {
    PrintDirs();
  }

  lemma BracesText(s: string)
    requires s != "" && s[0] == '{' && Closing(s, 0) >= 0
    ensures Head(s).1 == Closing(s, 0) + 1
    ensures HeadText(s) == "(?:" + Print(CompileAlts(ParseAlts(SplitTop(s[1..Closing(s, 0)], 0)))) + ")"
  {
    PrintOne(CompileItem(Head(s).0));
  }

  lemma CharText(s: string)
    requires s != "" && s[0] != '*' && (s[0] == '{' ==> Closing(s, 0) < 0)
    ensures Head(s).1 == 1
    ensures HeadText(s) == if s[0] == '?' then "[^/]" else if s[0] in META then ['\\', s[0]] else [s[0]]
  {
    PrintOne(CompileItem(Head(s).0));
  }

  lemma PrintOne(t: Term)
    ensures t.q.One? ==> PrintTerm(t) == PrintAtom(t.atom)
  {
    assert PrintAtom(t.atom) + "" == PrintAtom(t.atom);
  }

  method TranslateGlob(glob: string) returns (re: string)
    ensures re == Body(Parse(glob))
    decreases |glob|, 1
  {
    hide *;
    re := "";
    var i := 0;
    assert glob[0..] == glob;
    while i < |glob|
      invariant 0 <= i <= |glob|
      invariant re + Body(Parse(glob[i..])) == Body(Parse(glob))
    {
      var piece, next := TranslateNext(glob, i);
      BodyStep(glob[i..]);
      assert glob[i..][next - i..] == glob[next..];
      re := re + piece;
      i := next;
    }
    assert glob[i..] == "";
    BodyEmpty();
  }

  lemma BodyEmpty()
    ensures Body(Parse("")) == ""
  {}

  method TranslateNext(glob: string, i: nat) returns (piece: string, next: nat)
    requires i < |glob|
    ensures piece == HeadText(glob[i..]) && next == i + Head(glob[i..]).1
    decreases |glob|, 0
  {
    hide HeadText, Head, Closing, Print, CompileAlts, ParseAlts, SplitTop;
    var c := glob[i];
    next := i;
    if c == '*' {
      StarText(glob[i..]);
      if i + 1 < |glob| && glob[i + 1] == '*' {
        next := next + 1;
        if next + 1 < |glob| && glob[next + 1] == '/' {
          next := next + 1;
          piece := "(?:[^/]+/)*";
        } else {
          piece := ".*";
        }
      } else {
        piece := "[^/]*";
      }
    } else if c == '?' {
      CharText(glob[i..]);
      piece := "[^/]";
    } else if c == '{' {
      var close := FindClosingBrace(glob, i);
      if close == -1 {
        CharText(glob[i..]);
        piece := "\\{";
      } else {
        BracesText(glob[i..]);
        SliceOfSlice(glob, i, |glob|, 1, close - i);
        assert glob[i..|glob|] == glob[i..];
        piece := TranslateBraces(glob[i + 1..close]);
        next := close;
      }
    } else if c in META {
      CharText(glob[i..]);
      piece := ['\\', c];
    } else {
      CharText(glob[i..]);
      piece := [c];
    }
    next := next + 1;
  }

  method TranslateBraces(body: string) returns (piece: string)
    ensures piece == "(?:" + Print(CompileAlts(ParseAlts(SplitTop(body, 0)))) + ")"
    decreases |body| + 1, 0
  {
    var alts := SplitTopLevel(body);
    var re := TranslateAlternates(alts);
    piece := "(?:" + re + ")";
  }

  lemma PrintDirs()
    ensures PrintTerm(CompileItem(Dirs)) == "(?:[^/]+/)*"
  {
    assert PrintAlternative(Done) == "";
    assert PrintAlternative(Then(Term(Char('/'), One), Done)) == "/";
    assert PrintAlternative(SEGMENT) == "[^/]+/";
  }

  /** The texts of the alternates with bars between them. */
  method TranslateAlternates(alts: seq<string>) returns (re: string)
    requires alts != []
    ensures re == Print(CompileAlts(ParseAlts(alts)))
    decreases Total(alts), 2 + |alts|
  {
    re := TranslateGlob(alts[0]);
    if |alts| > 1 {
      var rest := TranslateAlternates(alts[1..]);
      re := re + "|" + rest;
    }
  }

  /** The text handed to `new RegExp` reads as a pattern that passes exactly the accepted paths. */
  method GlobToRegExp(glob: string) returns (text: string)
    ensures ReadDisjunction(text) == Ok(GlobPattern(glob), "")
    ensures forall path :: Test(ReadDisjunction(text).value, path) <==>
      exists m :: StartsAt(glob, path, m) && Means(glob, path, m, |path|)
  {
    var prefix := if '/' in glob then "^" else "(?:^|.*/)";
    var body := TranslateGlob(glob);
    text := prefix + body + "$";
    PatternText(glob);
    ParsePlain(glob);
    PlainPrintable(Parse(glob), Then(Term(End, One), Done));
    ReadPrint(GlobPattern(glob));
    forall path ensures Test(GlobPattern(glob), path) <==>
      exists m :: StartsAt(glob, path, m) && Means(glob, path, m, |path|)
    {
      PatternMeans(glob, path);
    }
  }

  lemma PatternText(glob: string)
    ensures Print(GlobPattern(glob)) == (if '/' in glob then "^" else "(?:^|.*/)") + Body(Parse(glob)) + "$"
  {
    hide Parse, Compile, PrintTerm, PrintAlternative, Body;
    var g, k := Parse(glob), Then(Term(End, One), Done);
    var first := if '/' in glob then Term(Start, One) else ANY_DEPTH;
    PrintCompile(g, k);
    PrintAnchors(k);
    PrintAnyDepth();
    PrintThen(first, Compile(g, k));
  }

  lemma PrintThen(t: Term, rest: Alternative)
    ensures Print(Only(Then(t, rest))) == PrintTerm(t) + PrintAlternative(rest)
  {
    hide PrintTerm;
  }

  lemma PrintAnchors(k: Alternative)
    requires k == Then(Term(End, One), Done)
    ensures PrintAlternative(k) == "$" && PrintTerm(Term(Start, One)) == "^"
  {
    assert PrintAlternative(Done) == "";
  }

  lemma PrintAnyDepth()
    ensures PrintTerm(ANY_DEPTH) == "(?:^|.*/)"
  {
    assert PrintAlternative(Done) == "";
    assert PrintAlternative(Then(Term(Start, One), Done)) == "^";
    assert PrintAlternative(Then(Term(Char('/'), One), Done)) == "/";
    assert PrintAlternative(Then(Term(Dot, ZeroOrMore), Then(Term(Char('/'), One), Done))) == ".*/";
  }
}
