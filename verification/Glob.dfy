/**
 * Glob syntax: items between which a path is cut, and braces that hold alternates. The reading of a
 * glob text follows its nesting; what a glob accepts is said here without regular expressions.
 */
module Glob {
  import opened Text

  datatype Glob = Nil | Cons(item: Item, rest: Glob)
  datatype Item = Lit(c: char) | Star | DoubleStar | Dirs | AnyChar | Braces(alts: Alts)
  datatype Alts = Last(g: Glob) | More(g: Glob, rest: Alts)

  // ----------------------------------------------------------------------- what a glob accepts

  /** The characters that `.` does not match in a regular expression. */
  predicate IsLineTerminator(c: char) {
    c == '\n' || c == '\r' || c == '\U{2028}' || c == '\U{2029}'
  }

  /** `s[i..j]` is zero or more non-empty segments, each closed by a slash. */
  ghost predicate WholeSegments(s: string, i: int, j: int) {
    0 <= i <= j <= |s|
    && (i == j || (s[i] != '/' && s[j - 1] == '/' && forall k :: i < k < j ==> s[k - 1] != '/' || s[k] != '/'))
  }

  ghost predicate NoSlash(s: string, i: int, j: int) {
    0 <= i <= j <= |s| && forall k :: i <= k < j ==> s[k] != '/'
  }

  ghost predicate OneLine(s: string, i: int, j: int) {
    0 <= i <= j <= |s| && forall k :: i <= k < j ==> !IsLineTerminator(s[k])
  }

  /** The glob accepts the stretch `s[i..j]` of a path. */
  ghost predicate Accepts(g: Glob, s: string, i: int, j: int) {
    match g
    case Nil => 0 <= i == j <= |s|
    case Cons(item, rest) => exists m :: AcceptsItem(item, s, i, m) && Accepts(rest, s, m, j)
  }

  ghost predicate AcceptsItem(item: Item, s: string, i: int, j: int) {
    match item
    case Lit(c) => 0 <= i < |s| && j == i + 1 && s[i] == c
    case Star => NoSlash(s, i, j)
    case DoubleStar => OneLine(s, i, j)
    case Dirs => WholeSegments(s, i, j)
    case AnyChar => 0 <= i < |s| && j == i + 1 && s[i] != '/'
    case Braces(alts) => AcceptsAlts(alts, s, i, j)
  }

  ghost predicate AcceptsAlts(alts: Alts, s: string, i: int, j: int) {
    match alts
    case Last(g) => Accepts(g, s, i, j)
    case More(g, rest) => Accepts(g, s, i, j) || AcceptsAlts(rest, s, i, j)
  }

  lemma {:induction false} AcceptedBounds(g: Glob, s: string, i: int, j: int)
    requires Accepts(g, s, i, j)
    ensures 0 <= i <= j <= |s|
  {
    match g {
      case Nil =>
      case Cons(item, rest) =>
        var m :| AcceptsItem(item, s, i, m) && Accepts(rest, s, m, j);
        ItemBounds(item, s, i, m);
        AcceptedBounds(rest, s, m, j);
    }
  }

  lemma {:induction false} ItemBounds(item: Item, s: string, i: int, j: int)
    requires AcceptsItem(item, s, i, j)
    ensures 0 <= i <= j <= |s|
  {
    if item.Braces? { AltsBounds(item.alts, s, i, j); }
  }

  lemma {:induction false} AltsBounds(alts: Alts, s: string, i: int, j: int)
    requires AcceptsAlts(alts, s, i, j)
    ensures 0 <= i <= j <= |s|
  {
    if Accepts(alts.g, s, i, j) {
      AcceptedBounds(alts.g, s, i, j);
    } else {
      AltsBounds(alts.rest, s, i, j);
    }
  }

  // ------------------------------------------------------------------------- reading the text

  function Deeper(c: char): int {
    if c == '{' then 1 else if c == '}' then -1 else 0
  }

  /** Opening minus closing braces. */
  function Nest(s: string): int {
    if s == "" then 0 else Deeper(s[0]) + Nest(s[1..])
  }

  /** Index of the `}` that brings the depth to zero, or -1. */
  function Closing(s: string, depth: int): (r: int)
    ensures -1 <= r < |s|
    ensures r >= 0 ==> s[r] == '}'
  {
    if s == "" then -1
    else if s[0] == '}' && depth == 1 then 0
    else
      var r := Closing(s[1..], depth + Deeper(s[0]));
      if r < 0 then -1 else r + 1
  }

  /** The pieces between the commas at depth zero. */
  function SplitTop(s: string, depth: int): (parts: seq<string>)
    ensures parts != [] && Total(parts) <= |s|
  {
    if s == "" then [""]
    else if s[0] == ',' && depth == 0 then [""] + SplitTop(s[1..], 0)
    else
      var r := SplitTop(s[1..], depth + Deeper(s[0]));
      [[s[0]] + r[0]] + r[1..]
  }

  function Total(parts: seq<string>): nat {
    if parts == [] then 0 else |parts[0]| + Total(parts[1..])
  }

  function Parse(s: string): Glob
    decreases |s|, 1
  {
    if s == "" then Nil
    else
      var (item, n) := Head(s);
      Cons(item, Parse(s[n..]))
  }

  /** The first item of a glob text and how many characters spell it. */
  function Head(s: string): (r: (Item, nat))
    requires s != ""
    ensures 1 <= r.1 <= |s|
    decreases |s|, 0
  {
    if s[0] == '*' then
      if |s| > 1 && s[1] == '*' then
        if |s| > 2 && s[2] == '/' then (Dirs, 3) else (DoubleStar, 2)
      else (Star, 1)
    else if s[0] == '?' then (AnyChar, 1)
    else if s[0] == '{' && Closing(s, 0) >= 0 then
      var close := Closing(s, 0);
      (Braces(ParseAlts(SplitTop(s[1..close], 0))), close + 1)
    else (Lit(s[0]), 1)
  }

  function ParseAlts(parts: seq<string>): Alts
    requires parts != []
    decreases Total(parts), 1 + |parts|
  {
    if |parts| == 1 then Last(Parse(parts[0]))
    else More(Parse(parts[0]), ParseAlts(parts[1..]))
  }

  // --------------------------------------------------- braces mean the alternates inside them

  /** No prefix closes more braces than were open at depth `d`. */
  ghost predicate Inside(s: string, d: int) {
    forall k :: 0 <= k <= |s| ==> d + Nest(s[..k]) >= 0
  }

  /** No comma stands at depth zero, counting from depth `d`. */
  ghost predicate NoTopComma(s: string, d: int) {
    forall k :: 0 <= k < |s| && s[k] == ',' ==> d + Nest(s[..k]) != 0
  }

  lemma {:induction false} NestAppend(a: string, b: string)
    ensures Nest(a + b) == Nest(a) + Nest(b)
    decreases |a|
  {
    if a == "" {
      assert a + b == b;
    } else {
      assert (a + b)[1..] == a[1..] + b;
      NestAppend(a[1..], b);
    }
  }

  /** Splitting loses nothing. */
  lemma {:induction false} SplitTopJoins(s: string, depth: int)
    ensures Join(SplitTop(s, depth), ",") == s
    decreases |s|
  {
    hide SplitTop, Join;
    if s == "" {
      SplitTopEmpty(depth);
      JoinOne("", ",");
    } else if s[0] == ',' && depth == 0 {
      SplitTopJoins(s[1..], 0);
      SplitTopComma(s);
      JoinCons("", SplitTop(s[1..], 0), ",");
    } else {
      SplitTopJoins(s[1..], depth + Deeper(s[0]));
      SplitTopStep(s, depth);
      JoinLonger(s[0], SplitTop(s[1..], depth + Deeper(s[0])));
    }
  }

  lemma SplitTopEmpty(depth: int)
    ensures SplitTop("", depth) == [""]
  {}

  lemma SplitTopComma(s: string)
    requires s != "" && s[0] == ','
    ensures SplitTop(s, 0) == [""] + SplitTop(s[1..], 0)
  {}

  lemma JoinLonger(c: char, parts: seq<string>)
    requires parts != []
    ensures Join([[c] + parts[0]] + parts[1..], ",") == [c] + Join(parts, ",")
  {
    hide Join;
    var p, rest := parts[0], parts[1..];
    assert parts == [p] + rest;
    if rest == [] {
      JoinOne([c] + p, ",");
      JoinOne(p, ",");
      assert [[c] + p] + rest == [[c] + p] && [p] + rest == [p];
    } else {
      JoinCons([c] + p, rest, ",");
      JoinCons(p, rest, ",");
      assert [c] + p + "," + Join(rest, ",") == [c] + (p + "," + Join(rest, ","));
    }
  }

  lemma ShiftPrefixes(c: char, s: string)
    ensures forall k :: 1 <= k <= |s| + 1 ==> Nest(([c] + s)[..k]) == Deeper(c) + Nest(s[..k - 1])
  {
    forall k | 1 <= k <= |s| + 1 ensures Nest(([c] + s)[..k]) == Deeper(c) + Nest(s[..k - 1]) {
      assert ([c] + s)[..k][1..] == s[..k - 1];
    }
  }

  /** Every piece is free of commas at depth zero. */
  lemma {:induction false} SplitTopFree(s: string, depth: int)
    ensures NoTopComma(SplitTop(s, depth)[0], depth)
    ensures forall i :: 1 <= i < |SplitTop(s, depth)| ==> NoTopComma(SplitTop(s, depth)[i], 0)
    decreases |s|
  {
    if s != "" {
      if s[0] == ',' && depth == 0 {
        SplitTopFree(s[1..], 0);
      } else {
        var r := SplitTop(s[1..], depth + Deeper(s[0]));
        SplitTopFree(s[1..], depth + Deeper(s[0]));
        NoTopCommaCons(s[0], r[0], depth);
      }
    }
  }

  lemma NoTopCommaCons(c: char, s: string, depth: int)
    requires NoTopComma(s, depth + Deeper(c)) && !(c == ',' && depth == 0)
    ensures NoTopComma([c] + s, depth)
  {
    ShiftPrefixes(c, s);
    var t := [c] + s;
    forall k | 0 <= k < |t| && t[k] == ',' ensures depth + Nest(t[..k]) != 0 {
      if k > 0 { assert s[k - 1] == ','; }
    }
  }

  lemma NoTopCommaTail(s: string, depth: int)
    requires s != "" && NoTopComma(s, depth)
    ensures NoTopComma(s[1..], depth + Deeper(s[0])) && !(s[0] == ',' && depth == 0)
  {
    ShiftPrefixes(s[0], s[1..]);
    assert [s[0]] + s[1..] == s;
    assert s[..0] == "";
    forall k | 0 <= k < |s[1..]| && s[1..][k] == ','
      ensures depth + Deeper(s[0]) + Nest(s[1..][..k]) != 0
    {
      assert s[k + 1] == ',';
      assert s[..k + 1] == ([s[0]] + s[1..])[..k + 1];
    }
  }

  lemma SplitTopStep(s: string, depth: int)
    requires s != "" && !(s[0] == ',' && depth == 0)
    ensures SplitTop(s, depth) ==
      var r := SplitTop(s[1..], depth + Deeper(s[0])); [[s[0]] + r[0]] + r[1..]
  {}

  /** A piece without top-level commas, followed by a comma at depth zero, is the first piece. */
  lemma {:induction false} SplitTopFirst(p: string, rest: string, depth: int)
    requires NoTopComma(p, depth) && depth + Nest(p) == 0
    ensures SplitTop(p + "," + rest, depth) == [p] + SplitTop(rest, 0)
    decreases |p|
  {
    hide SplitTop, NoTopComma, Deeper;
    var s := p + "," + rest;
    if p == "" {
      assert s[1..] == rest;
      SplitTopComma(s);
    } else {
      NoTopCommaTail(p, depth);
      SplitTopFirst(p[1..], rest, depth + Deeper(p[0]));
      assert s[1..] == p[1..] + "," + rest;
      SplitTopStep(s, depth);
      assert [p[0]] + p[1..] == p;
    }
  }

  lemma {:induction false} SplitTopOnly(p: string, depth: int)
    requires NoTopComma(p, depth)
    ensures SplitTop(p, depth) == [p]
    decreases |p|
  {
    if p != "" {
      NoTopCommaTail(p, depth);
      SplitTopOnly(p[1..], depth + Deeper(p[0]));
      assert [p[0]] + p[1..] == p;
    }
  }

  /** A well-nested alternate: its braces balance and its commas are all nested. */
  ghost predicate Alternate(p: string) {
    Inside(p, 0) && Nest(p) == 0 && NoTopComma(p, 0)
  }

  lemma {:induction false} SplitTopOfJoin(parts: seq<string>)
    requires parts != [] && forall p :: p in parts ==> Alternate(p)
    ensures SplitTop(Join(parts, ","), 0) == parts
    decreases |parts|
  {
    assert parts[0] in parts;
    if |parts| == 1 {
      SplitTopOnly(parts[0], 0);
    } else {
      SplitTopOfJoin(parts[1..]);
      SplitTopFirst(parts[0], Join(parts[1..], ","), 0);
    }
  }

  lemma {:induction false} BodyInside(parts: seq<string>)
    requires forall p :: p in parts ==> Alternate(p)
    ensures Inside(Join(parts, ","), 0) && Nest(Join(parts, ",")) == 0
    decreases |parts|
  {
    if |parts| == 1 {
      assert parts[0] in parts;
    } else if |parts| > 1 {
      var p, t := parts[0], Join(parts[1..], ",");
      assert p in parts;
      BodyInside(parts[1..]);
      NestAppend(p, "," + t);
      assert ("," + t)[1..] == t;
      assert p + "," + t == p + ("," + t);
      forall k | 0 <= k <= |p + "," + t| ensures Nest((p + "," + t)[..k]) >= 0 {
        if k <= |p| {
          assert (p + "," + t)[..k] == p[..k];
        } else {
          var n := k - |p| - 1;
          assert (p + "," + t)[..k] == p + ("," + t[..n]);
          NestAppend(p, "," + t[..n]);
          assert ("," + t[..n])[1..] == t[..n];
        }
      }
    }
  }

  /** The first brace that leaves a body from which no prefix escapes is the one behind the body. */
  lemma {:induction false} ClosingBehind(body: string, rest: string, depth: int)
    requires depth >= 1 && Inside(body, depth - 1) && depth + Nest(body) == 1
    ensures Closing(body + "}" + rest, depth) == |body|
    decreases |body|
  {
    if body == "" {
      assert body + "}" + rest == "}" + rest;
    } else {
      assert (body + "}" + rest)[1..] == body[1..] + "}" + rest;
      ShiftPrefixes(body[0], body[1..]);
      assert [body[0]] + body[1..] == body;
      assert Nest(body[..1]) == Deeper(body[0]) by { assert body[..1][1..] == ""; }
      forall k | 0 <= k <= |body[1..]| ensures depth + Deeper(body[0]) - 1 + Nest(body[1..][..k]) >= 0 {
        assert body[..k + 1] == ([body[0]] + body[1..])[..k + 1];
      }
      ClosingBehind(body[1..], rest, depth + Deeper(body[0]));
    }
  }

  /** `{a,b,…}` in front of `rest` reads as braces around exactly the alternates `a`, `b`, …. */
  lemma ParseBraces(parts: seq<string>, rest: string)
    requires parts != [] && forall p :: p in parts ==> Alternate(p)
    ensures Parse("{" + Join(parts, ",") + "}" + rest) == Cons(Braces(ParseAlts(parts)), Parse(rest))
  {
    var body := Join(parts, ",");
    var s := "{" + body + "}" + rest;
    BodyInside(parts);
    ClosingBehind(body, rest, 1);
    assert s[1..] == body + "}" + rest;
    assert Closing(s, 0) == |body| + 1;
    assert s[1..|body| + 1] == body && s[|body| + 2..] == rest;
    SplitTopOfJoin(parts);
  }

  // ------------------------------------------------------------------------ the scanning loops

  method FindClosingBrace(glob: string, open: nat) returns (close: int)
    requires open < |glob|
    ensures close == if Closing(glob[open..], 0) < 0 then -1 else open + Closing(glob[open..], 0)
  {
    hide Closing;
    var depth := 0;
    var i := open;
    while i < |glob|
      invariant open <= i <= |glob|
      invariant Closing(glob[open..], 0) ==
                if Closing(glob[i..], depth) < 0 then -1 else i - open + Closing(glob[i..], depth)
    {
      ClosingAt(glob, i, depth);
      if glob[i] == '{' {
        depth := depth + 1;
      } else if glob[i] == '}' {
        depth := depth - 1;
        if depth == 0 { return i; }
      }
      i := i + 1;
    }
    ClosingEnd(glob, depth);
    return -1;
  }

  lemma ClosingAt(s: string, i: nat, depth: int)
    requires i < |s|
    ensures Closing(s[i..], depth) ==
      if s[i] == '}' && depth == 1 then 0
      else
        var r := Closing(s[i + 1..], depth + Deeper(s[i]));
        if r < 0 then -1 else r + 1
  {
    hide Deeper;
    assert s[i..][0] == s[i] && s[i..][1..] == s[i + 1..];
  }

  lemma ClosingEnd(s: string, depth: int)
    ensures Closing(s[|s|..], depth) == -1
  {}

  method SplitTopLevel(body: string) returns (parts: seq<string>)
    ensures parts == SplitTop(body, 0)
    ensures Join(parts, ",") == body
    ensures forall p :: p in parts ==> NoTopComma(p, 0)
  {
    hide SplitTop, Assemble, NoTopComma, Join;
    parts := [];
    var depth := 0;
    var current := "";
    Assembled([], "", SplitTop(body, 0));
    assert body[0..] == body;
    for i := 0 to |body|
      invariant SplitTop(body, 0) == Assemble(parts, current, SplitTop(body[i..], depth))
    {
      var c := body[i];
      SplitTopAt(body, i, depth);
      ghost var r := SplitTop(body[i + 1..], depth + Deeper(c));
      Assembled(parts + [current], "", r);
      AssembledChar(parts, current, c, r);
      if c == '{' {
        depth := depth + 1;
        current := current + [c];
      } else if c == '}' {
        depth := depth - 1;
        current := current + [c];
      } else if c == ',' && depth == 0 {
        parts := parts + [current];
        current := "";
      } else {
        current := current + [c];
      }
    }
    SplitTopEnd(body, depth);
    AssembledLast(parts, current);
    parts := parts + [current];
    SplitTopJoins(body, 0);
    SplitTopFree(body, 0);
  }

  /** Finished pieces, the text of the current piece so far, and the pieces of what is unread. */
  ghost function Assemble(parts: seq<string>, current: string, r: seq<string>): seq<string>
    requires r != []
  {
    parts + [current + r[0]] + r[1..]
  }

  lemma SplitTopAt(s: string, i: nat, depth: int)
    requires i < |s|
    ensures var r := SplitTop(s[i + 1..], depth + Deeper(s[i]));
      SplitTop(s[i..], depth) == if s[i] == ',' && depth == 0 then [""] + r else [[s[i]] + r[0]] + r[1..]
  {
    assert s[i..][0] == s[i] && s[i..][1..] == s[i + 1..];
  }

  lemma SplitTopEnd(s: string, depth: int)
    ensures SplitTop(s[|s|..], depth) == [""]
  {}

  lemma AssembledLast(parts: seq<string>, current: string)
    ensures Assemble(parts, current, [""]) == parts + [current]
  {
    assert current + "" == current;
    assert [""][1..] == [];
  }

  lemma Assembled(parts: seq<string>, current: string, r: seq<string>)
    requires r != [] && current == ""
    ensures Assemble(parts, current, r) == parts + r
    ensures parts != [] ==>
      Assemble(parts, current, r) == Assemble(parts[..|parts| - 1], parts[|parts| - 1], [""] + r)
  {
    assert current + r[0] == r[0];
    assert ([""] + r)[1..] == r;
    if parts != [] {
      assert parts[|parts| - 1] + "" == parts[|parts| - 1];
    }
  }

  lemma AssembledChar(parts: seq<string>, current: string, c: char, r: seq<string>)
    requires r != []
    ensures Assemble(parts, current, [[c] + r[0]] + r[1..]) == Assemble(parts, current + [c], r)
  {
    assert current + ([c] + r[0]) == current + [c] + r[0];
    assert ([[c] + r[0]] + r[1..])[1..] == r[1..];
  }
}
