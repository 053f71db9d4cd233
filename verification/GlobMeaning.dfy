/**
 * What a glob text stands for, said on the text itself: by the positions of its stars, braces and
 * commas, without reading it into items first. The reading of `Glob` is proved to agree.
 */
module GlobMeaning {
  import opened Text
  import opened Glob

  /** The brace at `c` is the first at which everything opened since the start of `s` is closed. */
  ghost predicate Closes(s: string, c: int) {
    1 <= c < |s| && Nest(s[..c + 1]) == 0 && forall k :: 1 <= k <= c ==> Nest(s[..k]) > 0
  }

  /** A comma of `s` at depth zero, counting from depth `d`. */
  ghost predicate TopComma(s: string, d: int, c: int) {
    0 <= c < |s| && s[c] == ',' && d + Nest(s[..c]) == 0
  }

  /** `s[k..l]` reaches from one comma at depth zero, or the front, to the next one, or the end. */
  ghost predicate Piece(s: string, d: int, k: int, l: int) {
    && 0 <= k <= l <= |s|
    && (k == 0 || TopComma(s, d, k - 1))
    && (l == |s| || TopComma(s, d, l))
    && forall c :: k <= c < l ==> !TopComma(s, d, c)
  }

  /** The glob text stands for the stretch `s[i..j]` of a path. */
  ghost predicate Means(glob: string, s: string, i: int, j: int)
    decreases |glob|
  {
    if glob == "" then
      0 <= i == j <= |s|
    else if "**/" <= glob then
      exists m :: WholeSegments(s, i, m) && Means(glob[3..], s, m, j)
    else if "**" <= glob then
      exists m :: OneLine(s, i, m) && Means(glob[2..], s, m, j)
    else if glob[0] == '*' then
      exists m :: NoSlash(s, i, m) && Means(glob[1..], s, m, j)
    else if glob[0] == '?' then
      0 <= i < |s| && s[i] != '/' && Means(glob[1..], s, i + 1, j)
    else if glob[0] == '{' && exists c :: Closes(glob, c) then
      exists c, k, l, m ::
        && Closes(glob, c) && Piece(glob[1..c], 0, k, l)
        && Means(glob[1..c][k..l], s, i, m) && Means(glob[c + 1..], s, m, j)
    else
      0 <= i < |s| && s[i] == glob[0] && Means(glob[1..], s, i + 1, j)
  }

  // -------------------------------------------------------------------- depth, closings and pieces

  /** The depth counts the braces of either kind. */
  lemma {:induction false} NestCounts(s: string)
    ensures Nest(s) + multiset(s)['}'] == multiset(s)['{']
    decreases |s|
  {
    if s != "" {
      NestCounts(s[1..]);
      assert s == [s[0]] + s[1..];
      assert multiset(s) == multiset([s[0]]) + multiset(s[1..]);
    }
  }

  ghost predicate ClosesFrom(s: string, d: int, c: int) {
    0 <= c < |s| && d + Nest(s[..c + 1]) == 0 && forall k :: 0 <= k <= c ==> d + Nest(s[..k]) > 0
  }

  lemma PrefixNest(s: string)
    requires s != ""
    ensures forall k :: 1 <= k <= |s| ==> Nest(s[..k]) == Deeper(s[0]) + Nest(s[1..][..k - 1])
    ensures Nest(s[..0]) == 0
  {
    hide Nest;
    assert [s[0]] + s[1..] == s;
    ShiftPrefixes(s[0], s[1..]);
    EmptyNest();
    assert s[..0] == "";
  }

  lemma EmptyNest()
    ensures Nest("") == 0
  {}

  lemma {:induction false} ClosingFrom(s: string, d: int)
    requires d >= 1
    ensures forall c :: 0 <= c ==> (Closing(s, d) == c <==> ClosesFrom(s, d, c))
    decreases |s|
  {
    hide Nest;
    if s != "" {
      PrefixNest(s);
      EmptyNest();
      assert s[1..][..0] == "";
      if s[0] == '}' && d == 1 {
        assert ClosesFrom(s, d, 0);
        assert Nest(s[..1]) == -1;
        assert forall c :: 1 <= c ==> !ClosesFrom(s, d, c);
      } else {
        var e := d + Deeper(s[0]);
        ClosingFrom(s[1..], e);
        assert !ClosesFrom(s, d, 0);
        forall c | 1 <= c ensures ClosesFrom(s, d, c) <==> ClosesFrom(s[1..], e, c - 1) {
          ClosesTail(s, d, c);
        }
      }
    }
  }

  lemma ClosesTail(s: string, d: int, c: int)
    requires s != "" && d >= 1 && 1 <= c && (s[0] != '}' || d > 1)
    ensures ClosesFrom(s, d, c) <==> ClosesFrom(s[1..], d + Deeper(s[0]), c - 1)
  {
    hide Nest;
    PrefixNest(s);
    if ClosesFrom(s[1..], d + Deeper(s[0]), c - 1) {
      forall k | 0 <= k <= c ensures d + Nest(s[..k]) > 0 {
        if k > 0 { assert d + Deeper(s[0]) + Nest(s[1..][..k - 1]) > 0; }
      }
    }
    if ClosesFrom(s, d, c) {
      forall k | 0 <= k <= c - 1 ensures d + Deeper(s[0]) + Nest(s[1..][..k]) > 0 {
        assert d + Nest(s[..k + 1]) > 0;
      }
    }
  }

  /** The scanned index is that of the first brace at which all are closed, and -1 without one. */
  lemma ClosingIff(s: string)
    requires s != "" && s[0] == '{'
    ensures forall c :: 0 <= c ==> (Closing(s, 0) == c <==> Closes(s, c))
  {
    hide Nest;
    ClosingFrom(s[1..], 1);
    PrefixNest(s);
    forall c | 1 <= c ensures Closes(s, c) <==> ClosesFrom(s[1..], 1, c - 1) {
      if Closes(s, c) {
        forall k | 0 <= k <= c - 1 ensures 1 + Nest(s[1..][..k]) > 0 {
          assert Nest(s[..k + 1]) > 0;
        }
      }
    }
  }

  lemma NoClosing(s: string)
    requires s != "" && s[0] == '{' && !exists c :: Closes(s, c)
    ensures Closing(s, 0) < 0
  {
    ClosingIff(s);
    assert !Closes(s, Closing(s, 0));
  }

  lemma CommaTail(s: string, d: int, c: int)
    requires s != "" && 1 <= c
    ensures TopComma(s, d, c) <==> TopComma(s[1..], d + Deeper(s[0]), c - 1)
  {
    hide Nest;
    PrefixNest(s);
  }

  lemma CommaFront(s: string, d: int)
    requires s != ""
    ensures TopComma(s, d, 0) <==> s[0] == ',' && d == 0
  {
    PrefixNest(s);
  }

  lemma PieceTail(s: string, d: int, k: int, l: int)
    requires s != "" && 1 <= l && (k == 0 ==> !TopComma(s, d, 0)) && (k == 1 ==> TopComma(s, d, 0))
    ensures Piece(s, d, k, l) <==>
      if k == 0 then Piece(s[1..], d + Deeper(s[0]), 0, l - 1)
      else if k == 1 then Piece(s[1..], d + Deeper(s[0]), 0, l - 1)
      else Piece(s[1..], d + Deeper(s[0]), k - 1, l - 1)
  {
    hide TopComma;
    var t, e := s[1..], d + Deeper(s[0]);
    forall c | 1 <= c ensures TopComma(s, d, c) <==> TopComma(t, e, c - 1) { CommaTail(s, d, c); }
    forall c | 0 <= c ensures TopComma(t, e, c) <==> TopComma(s, d, c + 1) { CommaTail(s, d, c + 1); }
  }

  /** Every stretch between neighbouring commas is one of the split pieces. */
  lemma {:induction false} PieceIsPart(s: string, d: int, k: int, l: int)
    requires Piece(s, d, k, l)
    ensures k == 0 ==> s[..l] == SplitTop(s, d)[0]
    ensures k > 0 ==> s[k..l] in SplitTop(s, d)[1..]
    decreases |s|
  {
    hide Piece, TopComma, SplitTop;
    PieceBounds(s, d, k, l);
    if s == "" {
      SplitTopEmpty(d);
    } else {
      var t, e := s[1..], d + Deeper(s[0]);
      CommaFront(s, d);
      PieceEdges(s, d, k, l);
      if s[0] == ',' && d == 0 {
        SplitTopComma(s);
        if k > 0 {
          PieceTail(s, d, k, l);
          PieceIsPart(t, 0, k - 1, l - 1);
          assert t[k - 1..l - 1] == s[k..l];
        }
      } else {
        SplitTopStep(s, d);
        PieceTail(s, d, k, l);
        if k == 0 {
          PieceIsPart(t, e, 0, l - 1);
          assert s[..l] == [s[0]] + t[..l - 1];
        } else {
          PieceIsPart(t, e, k - 1, l - 1);
          assert t[k - 1..l - 1] == s[k..l];
        }
      }
    }
  }

  lemma PieceBounds(s: string, d: int, k: int, l: int)
    requires Piece(s, d, k, l)
    ensures 0 <= k <= l <= |s|
  {}

  lemma PieceEdges(s: string, d: int, k: int, l: int)
    requires s != "" && Piece(s, d, k, l)
    ensures k == 0 ==> (l == 0 <==> TopComma(s, d, 0))
    ensures k == 1 ==> TopComma(s, d, 0)
  {}

  /** And every split piece is such a stretch. */
  lemma {:induction false} PartIsPiece(s: string, d: int, n: nat) returns (k: int, l: int)
    requires n < |SplitTop(s, d)|
    ensures Piece(s, d, k, l) && s[k..l] == SplitTop(s, d)[n] && (n == 0 <==> k == 0)
    decreases |s|
  {
    hide Piece, TopComma, SplitTop;
    if s == "" {
      SplitTopEmpty(d);
      k, l := 0, 0;
      EmptyPiece(d);
    } else {
      var t, e := s[1..], d + Deeper(s[0]);
      CommaFront(s, d);
      if s[0] == ',' && d == 0 {
        SplitTopComma(s);
        if n == 0 {
          k, l := 0, 0;
          FirstEmpty(s, d);
        } else {
          k, l := PartIsPiece(t, 0, n - 1);
          PieceBounds(t, 0, k, l);
          k, l := k + 1, l + 1;
          PieceTail(s, d, k, l);
          assert t[k - 1..l - 1] == s[k..l];
        }
      } else {
        SplitTopStep(s, d);
        k, l := PartIsPiece(t, e, n);
        PieceBounds(t, e, k, l);
        if n == 0 {
          l := l + 1;
          PieceTail(s, d, k, l);
          assert s[k..l] == [s[0]] + t[0..l - 1];
        } else {
          k, l := k + 1, l + 1;
          PieceTail(s, d, k, l);
          assert t[k - 1..l - 1] == s[k..l];
        }
      }
    }
  }

  lemma EmptyPiece(d: int)
    ensures Piece("", d, 0, 0)
  {}

  lemma FirstEmpty(s: string, d: int)
    requires TopComma(s, d, 0)
    ensures Piece(s, d, 0, 0)
  {}

  // ------------------------------------------------------------------------- reading agrees

  lemma {:induction false} AltsAreAny(parts: seq<string>, s: string, i: int, j: int)
    requires parts != []
    ensures AcceptsAlts(ParseAlts(parts), s, i, j) <==>
      exists k :: 0 <= k < |parts| && Accepts(Parse(parts[k]), s, i, j)
    decreases |parts|
  {
    hide Parse, Accepts;
    if |parts| > 1 {
      AltsAreAny(parts[1..], s, i, j);
      if k :| 0 <= k < |parts| && Accepts(Parse(parts[k]), s, i, j) && k > 0 {
        assert Accepts(Parse(parts[1..][k - 1]), s, i, j);
      }
      if k :| 0 <= k < |parts[1..]| && Accepts(Parse(parts[1..][k]), s, i, j) {
        assert Accepts(Parse(parts[k + 1]), s, i, j);
      }
    }
  }

  /** An item in front of a glob is accepted in front of what that glob accepts. */
  lemma AcceptsStep(glob: string, s: string, i: int, j: int)
    requires glob != ""
    ensures Accepts(Parse(glob), s, i, j) <==>
      AcceptsThen(Head(glob).0, Parse(glob[Head(glob).1..]), s, i, j)
  {
    var (item, n) := Head(glob);
    assert Parse(glob) == Cons(item, Parse(glob[n..]));
    AcceptsCons(item, Parse(glob[n..]), s, i, j);
  }

  lemma AcceptsEmpty(s: string, i: int, j: int)
    ensures Accepts(Parse(""), s, i, j) <==> 0 <= i == j <= |s|
  {}

  lemma StarHead(glob: string)
    requires glob != "" && glob[0] == '*'
    ensures Head(glob) == if "**/" <= glob then (Dirs, 3) else if "**" <= glob then (DoubleStar, 2) else (Star, 1)
  {
    assert |glob| > 2 ==> glob[..3] == [glob[0], glob[1], glob[2]];
    assert |glob| > 1 ==> glob[..2] == [glob[0], glob[1]];
  }

  /** The text and its reading stand for the same stretches of every path. */
  lemma {:induction false} MeansIff(glob: string, s: string, i: int, j: int)
    ensures Means(glob, s, i, j) <==> Accepts(Parse(glob), s, i, j)
    decreases |glob|
  {
    hide Accepts, Parse;
    if glob == "" {
      AcceptsEmpty(s, i, j);
    } else {
      AcceptsStep(glob, s, i, j);
      if glob[0] == '*' {
        StarMeans(glob, s, i, j);
      } else if glob[0] == '{' && exists c :: Closes(glob, c) {
        BracesMeanPieces(glob, s, i, j);
      } else {
        CharMeans(glob, s, i, j);
      }
    }
  }

  lemma StarMeans(glob: string, s: string, i: int, j: int)
    requires glob != "" && glob[0] == '*'
    ensures Means(glob, s, i, j) <==> Accepts(Parse(glob), s, i, j)
    decreases |glob|, 0
  {
    hide Accepts, Parse, Head, WholeSegments, OneLine, NoSlash;
    AcceptsStep(glob, s, i, j);
    StarHead(glob);
    var n := Head(glob).1;
    forall m ensures Means(glob[n..], s, m, j) <==> Accepts(Parse(glob[n..]), s, m, j) {
      MeansIff(glob[n..], s, m, j);
    }
  }

  lemma CharMeans(glob: string, s: string, i: int, j: int)
    requires glob != "" && glob[0] != '*' && (glob[0] == '{' ==> !exists c :: Closes(glob, c))
    ensures Means(glob, s, i, j) <==> Accepts(Parse(glob), s, i, j)
    decreases |glob|, 0
  {
    hide Accepts, Parse, Closes;
    AcceptsStep(glob, s, i, j);
    if glob[0] == '{' { NoClosing(glob); }
    assert Head(glob) == (if glob[0] == '?' then AnyChar else Lit(glob[0]), 1);
    assert Head(glob).1 == 1;
    MeansIff(glob[1..], s, i + 1, j);
  }

  ghost predicate AnyPiece(body: string, s: string, i: int, m: int) {
    exists k, l :: 0 <= k <= l <= |body| && Piece(body, 0, k, l) && Means(body[k..l], s, i, m)
  }

  ghost predicate PiecesThen(body: string, rest: string, s: string, i: int, j: int) {
    exists m :: AnyPiece(body, s, i, m) && Means(rest, s, m, j)
  }

  lemma BracesUnfold(glob: string, c: int, s: string, i: int, j: int)
    requires glob != "" && glob[0] == '{' && Closes(glob, c)
    ensures 1 <= c < |glob|
    ensures Means(glob, s, i, j) <==> PiecesThen(glob[1..c], glob[c + 1..], s, i, j)
  {
    ClosedLater(glob, c);
    BracesExist(glob, c, s, i, j);
    hide Means, Piece;
    var body, rest := glob[1..c], glob[c + 1..];
    if k, l, m :|
        && 0 <= k <= l <= |body| && Piece(body, 0, k, l)
        && Means(body[k..l], s, i, m) && Means(rest, s, m, j)
    {
      assert AnyPiece(body, s, i, m) && Means(rest, s, m, j);
    }
    if m :| AnyPiece(body, s, i, m) && Means(rest, s, m, j) {
      var k, l :| 0 <= k <= l <= |body| && Piece(body, 0, k, l) && Means(body[k..l], s, i, m);
      assert PieceThen(body, rest, s, i, j);
    }
  }

  ghost predicate PieceThen(body: string, rest: string, s: string, i: int, j: int) {
    exists k, l, m ::
      && 0 <= k <= l <= |body| && Piece(body, 0, k, l)
      && Means(body[k..l], s, i, m) && Means(rest, s, m, j)
  }

  lemma BracesExist(glob: string, c: int, s: string, i: int, j: int)
    requires glob != "" && glob[0] == '{' && Closes(glob, c) && 1 <= c < |glob|
    ensures Means(glob, s, i, j) <==> PieceThen(glob[1..c], glob[c + 1..], s, i, j)
  {
    ClosingIff(glob);
    hide Piece, Closing, Closes;
    var body, rest := glob[1..c], glob[c + 1..];
    assert Means(glob, s, i, j) <==> exists k, l, m ::
        && 0 <= k <= l <= |body| && Piece(body, 0, k, l)
        && Means(body[k..l], s, i, m) && Means(rest, s, m, j);
  }

  lemma BracesMeanPieces(glob: string, s: string, i: int, j: int)
    requires glob != "" && glob[0] == '{' && exists c :: Closes(glob, c)
    ensures Means(glob, s, i, j) <==> Accepts(Parse(glob), s, i, j)
    decreases |glob|, 0
  {
    hide Accepts, Parse, Closes, Piece, SplitTop, ParseAlts, Means;
    AcceptsStep(glob, s, i, j);
    ClosingIff(glob);
    var c :| Closes(glob, c);
    BracesUnfold(glob, c, s, i, j);
    var body, rest := glob[1..c], glob[c + 1..];
    var parts := SplitTop(body, 0);
    assert Head(glob) == (Braces(ParseAlts(parts)), c + 1);
    var alts := ParseAlts(parts);
    forall m ensures AnyPiece(body, s, i, m) <==> AcceptsAlts(alts, s, i, m) {
      PiecesAreAlts(body, s, i, m);
    }
    forall m ensures Means(rest, s, m, j) <==> Accepts(Parse(rest), s, m, j) {
      MeansIff(rest, s, m, j);
    }
    SameThen(body, rest, alts, s, i, j);
  }

  lemma SameThen(body: string, rest: string, alts: Alts, s: string, i: int, j: int)
    requires forall m :: AnyPiece(body, s, i, m) <==> AcceptsAlts(alts, s, i, m)
    requires forall m :: Means(rest, s, m, j) <==> Accepts(Parse(rest), s, m, j)
    ensures PiecesThen(body, rest, s, i, j) <==> AcceptsThen(Braces(alts), Parse(rest), s, i, j)
  {
    hide Means, Accepts, Parse, AcceptsAlts, AnyPiece;
    var item := Braces(alts);
    assert forall m :: AcceptsItem(item, s, i, m) <==> AcceptsAlts(alts, s, i, m);
    if m :| AnyPiece(body, s, i, m) && Means(rest, s, m, j) {
      assert AcceptsItem(item, s, i, m) && Accepts(Parse(rest), s, m, j);
    }
    if m :| AcceptsItem(item, s, i, m) && Accepts(Parse(rest), s, m, j) {
      assert AnyPiece(body, s, i, m) && Means(rest, s, m, j);
    }
  }

  lemma PiecesAreAlts(body: string, s: string, i: int, m: int)
    ensures AnyPiece(body, s, i, m) <==> AcceptsAlts(ParseAlts(SplitTop(body, 0)), s, i, m)
    decreases |body| + 1
  {
    hide Accepts, Parse, Piece, SplitTop, ParseAlts, Means;
    var parts := SplitTop(body, 0);
    AltsAreAny(parts, s, i, m);
    if k, l :| 0 <= k <= l <= |body| && Piece(body, 0, k, l) && Means(body[k..l], s, i, m) {
      MeansIff(body[k..l], s, i, m);
      PieceIsPart(body, 0, k, l);
      assert body[k..l] in parts;
    }
    if n :| 0 <= n < |parts| && Accepts(Parse(parts[n]), s, i, m) {
      var k, l := PartIsPiece(body, 0, n);
      PieceBounds(body, 0, k, l);
      MeansIff(body[k..l], s, i, m);
    }
  }

  lemma ClosedLater(s: string, c: int)
    requires Closes(s, c)
    ensures 1 <= c < |s|
  {}

  // --------------------------------------------------------------------- written alternates

  /** A stretch for one of the alternates, and one for `rest` behind it. */
  ghost predicate AlternateThen(parts: seq<string>, rest: string, s: string, i: int, j: int) {
    exists k, m :: 0 <= k < |parts| && Means(parts[k], s, i, m) && Means(rest, s, m, j)
  }

  /** `{a,b,…}` in front of `rest` stands for any of `a`, `b`, … in front of what `rest` stands for. */
  lemma BracesMean(parts: seq<string>, rest: string, s: string, i: int, j: int)
    requires parts != [] && forall p :: p in parts ==> Alternate(p)
    ensures Means("{" + Join(parts, ",") + "}" + rest, s, i, j) <==> AlternateThen(parts, rest, s, i, j)
  {
    hide Means, Accepts, Alternate, Join, Parse, ParseAlts;
    var glob := "{" + Join(parts, ",") + "}" + rest;
    MeansIff(glob, s, i, j);
    BracesAccept(parts, rest, s, i, j);
    if k, m :| 0 <= k < |parts| && Means(parts[k], s, i, m) && Means(rest, s, m, j) {
      MeansIff(parts[k], s, i, m);
      MeansIff(rest, s, m, j);
    }
    if k, m :| 0 <= k < |parts| && Accepts(Parse(parts[k]), s, i, m) && Accepts(Parse(rest), s, m, j) {
      MeansIff(parts[k], s, i, m);
      MeansIff(rest, s, m, j);
    }
  }

  /** A plain text in front: no opening brace, and no star at its end to pair with what follows. */
  predicate PlainFront(pre: string) {
    '{' !in pre && (pre == "" || pre[|pre| - 1] != '*')
  }

  /** Two stretches of a path back to back, the one for `pre` and the one for `rest`. */
  ghost predicate BackToBack(pre: string, rest: string, s: string, i: int, j: int) {
    exists m :: Means(pre, s, i, m) && Means(rest, s, m, j)
  }

  /** How many characters the first item of a text without opening braces takes. */
  function Width(glob: string): (n: nat)
    requires glob != ""
    ensures 1 <= n <= |glob|
  {
    if "**/" <= glob then 3 else if "**" <= glob then 2 else 1
  }

  /** What that item stands for. */
  ghost predicate FirstMeans(glob: string, s: string, i: int, m: int)
    requires glob != ""
  {
    if "**/" <= glob then WholeSegments(s, i, m)
    else if "**" <= glob then OneLine(s, i, m)
    else if glob[0] == '*' then NoSlash(s, i, m)
    else 0 <= i < |s| && m == i + 1 && if glob[0] == '?' then s[i] != '/' else s[i] == glob[0]
  }

  lemma MeansStep(glob: string, s: string, i: int, j: int)
    requires glob != "" && glob[0] != '{'
    ensures Means(glob, s, i, j) <==> FirstThen(glob, glob[Width(glob)..], s, i, j)
  {
    hide WholeSegments, OneLine, NoSlash;
    assert "**/" <= glob ==> glob[0] == '*' && "**" <= glob;
    assert "**" <= glob ==> glob[0] == '*';
    var rest := glob[Width(glob)..];
    if Means(glob, s, i, j) {
      if "**/" <= glob {
        var m :| WholeSegments(s, i, m) && Means(rest, s, m, j);
        assert FirstMeans(glob, s, i, m);
      } else if "**" <= glob {
        var m :| OneLine(s, i, m) && Means(rest, s, m, j);
        assert FirstMeans(glob, s, i, m);
      } else if glob[0] == '*' {
        var m :| NoSlash(s, i, m) && Means(rest, s, m, j);
        assert FirstMeans(glob, s, i, m);
      } else {
        assert FirstMeans(glob, s, i, i + 1);
      }
    }
    if m :| FirstMeans(glob, s, i, m) && Means(rest, s, m, j) {
      assert Means(glob, s, i, j);
    }
  }

  ghost predicate FirstThen(glob: string, rest: string, s: string, i: int, j: int)
    requires glob != ""
  {
    exists m :: FirstMeans(glob, s, i, m) && Means(rest, s, m, j)
  }

  lemma {:induction false} FrontMeans(pre: string, rest: string, s: string, i: int, j: int)
    requires PlainFront(pre)
    ensures Means(pre + rest, s, i, j) <==> BackToBack(pre, rest, s, i, j)
    decreases |pre|
  {
    hide Means, BackToBack, FirstMeans, FirstThen, Width;
    if pre == "" {
      assert pre + rest == rest;
      EmptyFront(rest, s, i, j);
    } else {
      var n := Width(pre);
      var tail := pre[n..];
      SameFirst(pre, rest);
      assert (pre + rest)[n..] == tail + rest;
      forall m ensures Means(tail + rest, s, m, j) <==> BackToBack(tail, rest, s, m, j) {
        FrontMeans(tail, rest, s, m, j);
      }
      MeansStep(pre + rest, s, i, j);
      FrontStep(pre, rest, s, i, j);
    }
  }

  lemma EmptyFront(rest: string, s: string, i: int, j: int)
    ensures Means(rest, s, i, j) <==> BackToBack("", rest, s, i, j)
  {
    MeansIff(rest, s, i, j);
    if Accepts(Parse(rest), s, i, j) { AcceptedBounds(Parse(rest), s, i, j); }
    assert forall m :: Means("", s, i, m) <==> 0 <= i == m <= |s|;
  }

  lemma SameFirst(pre: string, rest: string)
    requires pre != "" && PlainFront(pre)
    ensures pre[0] != '{' && Width(pre + rest) == Width(pre) && PlainFront(pre[Width(pre)..])
    ensures forall s, i, m :: FirstMeans(pre + rest, s, i, m) <==> FirstMeans(pre, s, i, m)
  {
    var glob := pre + rest;
    if |pre| == 1 {
      assert pre[0] != '*' && glob[0] == pre[0];
    } else {
      assert "**" <= glob <==> "**" <= pre by {
        assert glob[..2] == pre[..2];
      }
      assert |pre| == 2 ==> pre[1] != '*';
      if |pre| > 2 {
        assert glob[..3] == pre[..3];
      }
    }
  }

  lemma FrontStep(pre: string, rest: string, s: string, i: int, j: int)
    requires pre != "" && pre[0] != '{'
    requires forall m ::
      Means(pre[Width(pre)..] + rest, s, m, j) <==> BackToBack(pre[Width(pre)..], rest, s, m, j)
    requires forall m :: FirstMeans(pre + rest, s, i, m) <==> FirstMeans(pre, s, i, m)
    ensures FirstThen(pre + rest, pre[Width(pre)..] + rest, s, i, j) <==> BackToBack(pre, rest, s, i, j)
  {
    hide Means, FirstMeans, Width;
    var tail := pre[Width(pre)..];
    if m :| FirstMeans(pre + rest, s, i, m) && Means(tail + rest, s, m, j) {
      assert BackToBack(tail, rest, s, m, j);
      var q :| Means(tail, s, m, q) && Means(rest, s, q, j);
      assert FirstThen(pre, tail, s, i, q);
      MeansStep(pre, s, i, q);
      assert Means(pre, s, i, q);
    }
    if q :| Means(pre, s, i, q) && Means(rest, s, q, j) {
      MeansStep(pre, s, i, q);
      assert FirstThen(pre, tail, s, i, q);
      var m :| FirstMeans(pre, s, i, m) && Means(tail, s, m, q);
      assert BackToBack(tail, rest, s, m, j);
      assert FirstMeans(pre + rest, s, i, m) && Means(tail + rest, s, m, j);
    }
  }

  lemma BracesAccept(parts: seq<string>, rest: string, s: string, i: int, j: int)
    requires parts != [] && forall p :: p in parts ==> Alternate(p)
    ensures Accepts(Parse("{" + Join(parts, ",") + "}" + rest), s, i, j) <==>
      exists k, m :: 0 <= k < |parts| && Accepts(Parse(parts[k]), s, i, m) && Accepts(Parse(rest), s, m, j)
  {
    hide Accepts, Alternate, Join, Parse, ParseAlts;
    ParseBraces(parts, rest);
    var item := Braces(ParseAlts(parts));
    AcceptsCons(item, Parse(rest), s, i, j);
    if k, m :| 0 <= k < |parts| && Accepts(Parse(parts[k]), s, i, m) && Accepts(Parse(rest), s, m, j) {
      AltsAreAny(parts, s, i, m);
      assert AcceptsItem(item, s, i, m) && Accepts(Parse(rest), s, m, j);
    }
    if m :| AcceptsItem(item, s, i, m) && Accepts(Parse(rest), s, m, j) {
      AltsAreAny(parts, s, i, m);
      var k :| 0 <= k < |parts| && Accepts(Parse(parts[k]), s, i, m);
    }
  }

  ghost predicate AcceptsThen(item: Item, rest: Glob, s: string, i: int, j: int) {
    exists m :: AcceptsItem(item, s, i, m) && Accepts(rest, s, m, j)
  }

  lemma AcceptsCons(item: Item, rest: Glob, s: string, i: int, j: int)
    ensures Accepts(Cons(item, rest), s, i, j) <==> AcceptsThen(item, rest, s, i, j)
  {
    var g := Cons(item, rest);
    assert Accepts(g, s, i, j) <==> exists m :: AcceptsItem(item, s, i, m) && Accepts(rest, s, m, j);
    assert AcceptsThen(item, rest, s, i, j) <==> exists m :: AcceptsItem(item, s, i, m) && Accepts(rest, s, m, j);
  }
}
