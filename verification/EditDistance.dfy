/**
 * Edit distance between two lines: the two-row table the fuzzy matcher fills in, the least number
 * of single-character edits it must equal, and the laws of a metric.
 */
module EditDistance {

  function Min(x: nat, y: nat): nat { if x <= y then x else y }

  function Max(x: nat, y: nat): nat { if x >= y then x else y }

  /** One cell of the table: the first `i` characters of `a` against the first `j` of `b`. */
  function Cell(a: string, b: string, i: nat, j: nat): nat
    requires i <= |a| && j <= |b|
    decreases i + j
  {
    if i == 0 then j
    else if j == 0 then i
    else
      var cost := if a[i - 1] == b[j - 1] then 0 else 1;
      Min(Min(Cell(a, b, i, j - 1) + 1, Cell(a, b, i - 1, j) + 1), Cell(a, b, i - 1, j - 1) + cost)
  }

  lemma CellEdge(a: string, b: string)
    ensures forall j :: 0 <= j <= |b| ==> Cell(a, b, 0, j) == j
    ensures forall i :: 0 <= i <= |a| ==> Cell(a, b, i, 0) == i
  {}

  lemma CellStep(a: string, b: string, i: nat, j: nat)
    requires 0 < i <= |a| && 0 < j <= |b|
    ensures Cell(a, b, i, j) ==
            Min(Min(Cell(a, b, i, j - 1) + 1, Cell(a, b, i - 1, j) + 1),
                Cell(a, b, i - 1, j - 1) + if a[i - 1] == b[j - 1] then 0 else 1)
  {}

  /** The last cell of the table. */
  function Dist(a: string, b: string): nat {
    Cell(a, b, |a|, |b|)
  }

  // --------------------------------------------------------------------- what it must compute

  /** One single-character edit of a text. */
  datatype Edit = Insert(at: nat, c: char) | Delete(at: nat) | Substitute(at: nat, c: char)

  predicate Applies(e: Edit, s: string) {
    if e.Insert? then e.at <= |s| else e.at < |s|
  }

  function Apply(e: Edit, s: string): string
    requires Applies(e, s)
  {
    match e
    case Insert(i, c) => s[..i] + [c] + s[i..]
    case Delete(i) => s[..i] + s[i + 1..]
    case Substitute(i, c) => s[..i] + [c] + s[i + 1..]
  }

  /** Making the edits of `script` one after the other turns `a` into `b`. */
  ghost predicate Transforms(script: seq<Edit>, a: string, b: string) {
    if script == [] then a == b
    else Applies(script[0], a) && Transforms(script[1..], Apply(script[0], a), b)
  }

  // ----------------------------------------------------------------------------- metric laws

  lemma {:induction false} CellSymmetric(a: string, b: string, i: nat, j: nat)
    requires i <= |a| && j <= |b|
    ensures Cell(a, b, i, j) == Cell(b, a, j, i)
    decreases i + j
  {
    hide Cell;
    CellEdge(a, b);
    CellEdge(b, a);
    if i > 0 && j > 0 {
      CellStep(a, b, i, j);
      CellStep(b, a, j, i);
      CellSymmetric(a, b, i, j - 1);
      CellSymmetric(a, b, i - 1, j);
      CellSymmetric(a, b, i - 1, j - 1);
    }
  }

  lemma {:induction false} CellBounds(a: string, b: string, i: nat, j: nat)
    requires i <= |a| && j <= |b|
    ensures i <= j + Cell(a, b, i, j) && j <= i + Cell(a, b, i, j) && Cell(a, b, i, j) <= Max(i, j)
    decreases i + j
  {
    hide Cell;
    CellEdge(a, b);
    if i > 0 && j > 0 {
      CellStep(a, b, i, j);
      CellBounds(a, b, i, j - 1);
      CellBounds(a, b, i - 1, j);
      CellBounds(a, b, i - 1, j - 1);
    }
  }

  lemma {:induction false} CellZero(a: string, b: string, i: nat, j: nat)
    requires i <= |a| && j <= |b|
    ensures Cell(a, b, i, j) == 0 <==> a[..i] == b[..j]
    decreases i + j
  {
    hide Cell;
    CellEdge(a, b);
    if i > 0 && j > 0 {
      CellStep(a, b, i, j);
      CellZero(a, b, i - 1, j - 1);
      assert a[..i] == a[..i - 1] + [a[i - 1]] && b[..j] == b[..j - 1] + [b[j - 1]];
    }
  }

  lemma {:induction false} CellTriangle(a: string, b: string, c: string, i: nat, j: nat, k: nat)
    requires i <= |a| && j <= |b| && k <= |c|
    ensures Cell(a, c, i, k) <= Cell(a, b, i, j) + Cell(b, c, j, k)
    decreases i + j + k
  {
    hide Cell;
    if i == 0 || j == 0 || k == 0 {
      CellBounds(a, b, i, j);
      CellBounds(b, c, j, k);
      CellBounds(a, c, i, k);
      CellEdge(a, b);
      CellEdge(b, c);
    } else {
      CellStep(a, b, i, j);
      CellStep(b, c, j, k);
      CellStep(a, c, i, k);
      CellTriangle(a, b, c, i - 1, j, k);
      CellTriangle(a, b, c, i, j, k - 1);
      CellTriangle(a, b, c, i, j - 1, k);
      CellTriangle(a, b, c, i, j - 1, k - 1);
      CellTriangle(a, b, c, i - 1, j - 1, k);
      CellTriangle(a, b, c, i - 1, j - 1, k - 1);
    }
  }

  lemma Symmetric(a: string, b: string)
    ensures Dist(a, b) == Dist(b, a)
  {
    CellSymmetric(a, b, |a|, |b|);
  }

  /** Between the difference of the lengths and the longer length. */
  lemma Bounds(a: string, b: string)
    ensures |a| <= |b| + Dist(a, b) && |b| <= |a| + Dist(a, b)
    ensures Dist(a, b) <= Max(|a|, |b|)
  {
    CellBounds(a, b, |a|, |b|);
  }

  lemma ZeroIffEqual(a: string, b: string)
    ensures Dist(a, b) == 0 <==> a == b
  {
    CellZero(a, b, |a|, |b|);
    assert a[..|a|] == a && b[..|b|] == b;
  }

  lemma Triangle(a: string, b: string, c: string)
    ensures Dist(a, c) <= Dist(a, b) + Dist(b, c)
  {
    CellTriangle(a, b, c, |a|, |b|, |c|);
  }

  // --------------------------------------------------- the table holds the least edit count

  /** A cell only looks at the characters in front of it. */
  lemma {:induction false} CellPrefix(a: string, b: string, x: string, y: string, i: nat, j: nat)
    requires i <= |a| && j <= |b| && a <= x && b <= y
    ensures Cell(a, b, i, j) == Cell(x, y, i, j)
    decreases i + j
  {
    hide Cell;
    CellEdge(a, b);
    CellEdge(x, y);
    if i > 0 && j > 0 {
      CellStep(a, b, i, j);
      CellStep(x, y, i, j);
      CellPrefix(a, b, x, y, i, j - 1);
      CellPrefix(a, b, x, y, i - 1, j);
      CellPrefix(a, b, x, y, i - 1, j - 1);
    }
  }

  lemma {:induction false} Diagonal(x: string, y: string, i: nat, j: nat, n: nat)
    requires i + n <= |x| && j + n <= |y| && x[i..i + n] == y[j..j + n]
    ensures Cell(x, y, i + n, j + n) <= Cell(x, y, i, j)
    decreases n
  {
    hide Cell;
    if n > 0 {
      var m := n - 1;
      assert x[i..i + m] == x[i..i + n][..m] && y[j..j + m] == y[j..j + n][..m];
      assert x[i + m] == x[i..i + n][m] && y[j + m] == y[j..j + n][m];
      Diagonal(x, y, i, j, m);
      CellStep(x, y, i + n, j + n);
    }
  }

  lemma CommonSuffix(a: string, b: string, t: string)
    ensures Dist(a + t, b + t) <= Dist(a, b)
  {
    hide Cell;
    CellPrefix(a, b, a + t, b + t, |a|, |b|);
    assert (a + t)[|a|..|a| + |t|] == t == (b + t)[|b|..|b| + |t|];
    Diagonal(a + t, b + t, |a|, |b|, |t|);
  }

  lemma LastCharacters(p: string, c: char, d: char)
    ensures Dist(p, p + [c]) <= 1 && Dist(p + [c], p) <= 1 && Dist(p + [c], p + [d]) <= 1
  {
    hide Cell;
    ZeroIffEqual(p, p);
    var n := |p|;
    CellEdge(p, p + [c]);
    CellEdge(p + [c], p);
    CellEdge(p + [c], p + [d]);
    if n > 0 {
      CellStep(p, p + [c], n, n + 1);
      CellStep(p + [c], p, n + 1, n);
    }
    CellStep(p + [c], p + [d], n + 1, n + 1);
    CellPrefix(p, p, p, p + [c], |p|, |p|);
    CellPrefix(p, p, p + [c], p, |p|, |p|);
    CellPrefix(p, p, p + [c], p + [d], |p|, |p|);
  }

  lemma BeforeSuffix(x: string, y: string, t: string, s: string, r: string)
    requires Dist(x, y) <= 1 && s == x + t && r == y + t
    ensures Dist(s, r) <= 1
  {
    CommonSuffix(x, y, t);
  }

  lemma OneEdit(e: Edit, s: string)
    requires Applies(e, s)
    ensures Dist(s, Apply(e, s)) <= 1
  {
    hide Dist;
    var p, c := s[..e.at], if e.at < |s| then s[e.at] else ' ';
    var d := if e.Delete? then c else e.c;
    assert Dist(p, p + [d]) <= 1 && Dist(p + [c], p) <= 1 && Dist(p + [c], p + [d]) <= 1 by {
      LastCharacters(p, c, d);
      LastCharacters(p, d, d);
    }
    match e {
      case Insert(i, _) => BeforeSuffix(p, p + [d], s[i..], s, Apply(e, s));
      case Delete(i) => BeforeSuffix(p + [c], p, s[i + 1..], s, Apply(e, s));
      case Substitute(i, _) => BeforeSuffix(p + [c], p + [d], s[i + 1..], s, Apply(e, s));
    }
  }

  /** No script of edits is cheaper than the table says. */
  lemma {:induction false} NoCheaperScript(script: seq<Edit>, a: string, b: string)
    requires Transforms(script, a, b)
    ensures Dist(a, b) <= |script|
    decreases |script|
  {
    hide Transforms, Apply, Applies, Dist;
    Unfold(script, a, b);
    if script == [] {
      ZeroIffEqual(a, b);
    } else {
      var m := Apply(script[0], a);
      OneEdit(script[0], a);
      NoCheaperScript(script[1..], m, b);
      Triangle(a, m, b);
    }
  }

  lemma Unfold(script: seq<Edit>, a: string, b: string)
    ensures script == [] ==> (Transforms(script, a, b) <==> a == b)
    ensures script != [] ==> (Transforms(script, a, b) <==>
                              Applies(script[0], a) && Transforms(script[1..], Apply(script[0], a), b))
  {}

  lemma ApplyLift(e: Edit, a: string, t: string)
    requires Applies(e, a)
    ensures Applies(e, a + t) && Apply(e, a + t) == Apply(e, a) + t
  {
    var i := e.at;
    var m := if e.Delete? then "" else [e.c];
    var n := if e.Insert? then i else i + 1;
    assert (a + t)[..i] == a[..i] && (a + t)[n..] == a[n..] + t;
    Regroup(a[..i], m, a[n..], t);
    assert e.Delete? ==> a[..i] + "" == a[..i];
  }

  lemma Regroup(p: string, m: string, q: string, t: string)
    ensures p + m + (q + t) == p + m + q + t
  {}

  /** A script for a text also edits the same text with more text behind it. */
  lemma {:induction false} Lift(script: seq<Edit>, a: string, b: string, t: string)
    requires Transforms(script, a, b)
    ensures Transforms(script, a + t, b + t)
    decreases |script|
  {
    hide Transforms, Apply, Applies;
    Unfold(script, a, b);
    Unfold(script, a + t, b + t);
    if script != [] {
      ApplyLift(script[0], a, t);
      Lift(script[1..], Apply(script[0], a), b, t);
    }
  }

  lemma {:induction false} Chain(s1: seq<Edit>, s2: seq<Edit>, a: string, m: string, b: string)
    requires Transforms(s1, a, m) && Transforms(s2, m, b)
    ensures Transforms(s1 + s2, a, b)
    decreases |s1|
  {
    hide Transforms, Apply, Applies;
    Unfold(s1, a, m);
    Unfold(s1 + s2, a, b);
    if s1 == [] {
      assert s1 + s2 == s2;
    } else {
      Chain(s1[1..], s2, Apply(s1[0], a), m, b);
      assert (s1 + s2)[1..] == s1[1..] + s2;
    }
  }

  lemma First(e: Edit, s: seq<Edit>, a: string, b: string)
    requires Applies(e, a) && Transforms(s, Apply(e, a), b)
    ensures Transforms([e] + s, a, b)
  {
    assert ([e] + s)[1..] == s;
  }

  lemma Last(s: seq<Edit>, e: Edit, a: string, m: string)
    requires Transforms(s, a, m) && Applies(e, m)
    ensures Transforms(s + [e], a, Apply(e, m))
  {
    First(e, [], m, Apply(e, m));
    assert [e] + [] == [e];
    Chain(s, [e], a, m, Apply(e, m));
  }

  /** Some script of edits is exactly as cheap as the table says. */
  lemma {:induction false} CheapestScript(a: string, b: string, i: nat, j: nat) returns (script: seq<Edit>)
    requires i <= |a| && j <= |b|
    ensures Transforms(script, a[..i], b[..j]) && |script| == Cell(a, b, i, j)
    decreases i + j
  {
    hide Transforms, Cell;
    CellEdge(a, b);
    if i > 0 && j > 0 { CellStep(a, b, i, j); }
    if i == 0 && j == 0 {
      script := [];
      Unchanged(a[..i], b[..j]);
    } else if i == 0 || (j > 0 && Cell(a, b, i, j) == Cell(a, b, i, j - 1) + 1) {
      var s := CheapestScript(a, b, i, j - 1);
      assert b[..j][..j - 1] == b[..j - 1];
      script := EndWithInsert(s, a[..i], b[..j]);
    } else if j == 0 || Cell(a, b, i, j) == Cell(a, b, i - 1, j) + 1 {
      var s := CheapestScript(a, b, i - 1, j);
      assert a[..i][..i - 1] == a[..i - 1];
      script := StartWithDelete(s, a[..i], b[..j]);
    } else {
      var s := CheapestScript(a, b, i - 1, j - 1);
      assert a[..i][..i - 1] == a[..i - 1] && b[..j][..j - 1] == b[..j - 1];
      script := MatchLast(s, a[..i], b[..j]);
    }
  }

  lemma Unchanged(a: string, b: string)
    requires a == b
    ensures Transforms([], a, b)
  {}

  lemma EndWithInsert(s: seq<Edit>, a: string, b: string) returns (script: seq<Edit>)
    requires b != "" && Transforms(s, a, b[..|b| - 1])
    ensures Transforms(script, a, b) && |script| == |s| + 1
  {
    var e := Insert(|b| - 1, b[|b| - 1]);
    assert Apply(e, b[..|b| - 1]) == b;
    Last(s, e, a, b[..|b| - 1]);
    script := s + [e];
  }

  lemma StartWithDelete(s: seq<Edit>, a: string, b: string) returns (script: seq<Edit>)
    requires a != "" && Transforms(s, a[..|a| - 1], b)
    ensures Transforms(script, a, b) && |script| == |s| + 1
  {
    var e := Delete(|a| - 1);
    assert Apply(e, a) == a[..|a| - 1];
    First(e, s, a, b);
    script := [e] + s;
  }

  lemma MatchLast(s: seq<Edit>, a: string, b: string) returns (script: seq<Edit>)
    requires a != "" && b != "" && Transforms(s, a[..|a| - 1], b[..|b| - 1])
    ensures Transforms(script, a, b)
    ensures |script| == |s| + if a[|a| - 1] == b[|b| - 1] then 0 else 1
  {
    hide Transforms;
    var c := b[|b| - 1];
    Lift(s, a[..|a| - 1], b[..|b| - 1], [c]);
    assert b[..|b| - 1] + [c] == b;
    if a[|a| - 1] == c {
      assert a[..|a| - 1] + [c] == a;
      script := s;
    } else {
      var e := Substitute(|a| - 1, c);
      assert Apply(e, a) == a[..|a| - 1] + [c];
      First(e, s, a, b);
      script := [e] + s;
    }
  }

  /** The value of the table is the length of the shortest script of single-character edits. */
  ghost predicate IsEditDistance(d: nat, a: string, b: string) {
    && (exists script :: Transforms(script, a, b) && |script| == d)
    && (forall script :: Transforms(script, a, b) ==> d <= |script|)
  }

  lemma DistIsEditDistance(a: string, b: string)
    ensures IsEditDistance(Dist(a, b), a, b)
  {
    var s := CheapestScript(a, b, |a|, |b|);
    assert a[..|a|] == a && b[..|b|] == b;
    forall script | Transforms(script, a, b) ensures Dist(a, b) <= |script| {
      NoCheaperScript(script, a, b);
    }
  }

  // ------------------------------------------------------------------------ the two-row loop

  method Levenshtein(a: string, b: string) returns (d: nat)
    ensures IsEditDistance(d, a, b)
    ensures d == Dist(a, b)
  {
    hide IsEditDistance, Cell;
    CellEdge(a, b);
    DistIsEditDistance(a, b);
    if a == b {
      ZeroIffEqual(a, b);
      return 0;
    }
    if |a| == 0 { return |b|; }
    if |b| == 0 { return |a|; }
    var previous: seq<nat> := seq(|b| + 1, i => i);
    for i := 1 to |a| + 1
      invariant |previous| == |b| + 1
      invariant forall j :: 0 <= j <= |b| ==> previous[j] == Cell(a, b, i - 1, j)
    {
      var current: seq<nat> := [i];
      for j := 1 to |b| + 1
        invariant |current| == j
        invariant forall k :: 0 <= k < j ==> current[k] == Cell(a, b, i, k)
      {
        var cost := if a[i - 1] == b[j - 1] then 0 else 1;
        CellStep(a, b, i, j);
        current := current + [Min(Min(current[j - 1] + 1, previous[j] + 1), previous[j - 1] + cost)];
      }
      previous := current;
    }
    return previous[|b|];
  }
}
