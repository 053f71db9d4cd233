/** Context around search hits, merged into blocks of lines. */
module Regions {
  /** The lines from `start` to `end`, both included. */
  datatype Region = Region(start: int, end: int)

  predicate Holds(r: Region, line: int) { r.start <= line <= r.end }

  predicate Covers(regions: seq<Region>, line: int) {
    exists k :: 0 <= k < |regions| && Holds(regions[k], line)
  }

  /** Non-empty regions in order, with at least one line between neighbours. */
  predicate Separated(regions: seq<Region>) {
    && (forall k :: 0 <= k < |regions| ==> regions[k].start <= regions[k].end)
    && forall j, k :: 0 <= j < k < |regions| ==> regions[j].end + 1 < regions[k].start
  }

  function Window(hit: int, before: nat, after: nat, lastLine: int): Region {
    Region(if hit < before then 0 else hit - before, if hit + after > lastLine then lastLine else hit + after)
  }

  /** Some hit has the line in its context. */
  predicate InContext(hits: seq<int>, before: nat, after: nat, lastLine: int, line: int) {
    exists k :: 0 <= k < |hits| && Holds(Window(hits[k], before, after, lastLine), line)
  }

  /** The lines of the file that are at most `before` lines in front of a hit or `after` behind it. */
  lemma InContextIff(hits: seq<int>, before: nat, after: nat, lastLine: int, line: int)
    requires forall k :: 0 <= k < |hits| ==> 0 <= hits[k] <= lastLine
    ensures InContext(hits, before, after, lastLine, line) <==>
      0 <= line <= lastLine && exists hit :: hit in hits && hit - before <= line <= hit + after
  {
    if k :| 0 <= k < |hits| && Holds(Window(hits[k], before, after, lastLine), line) {
      assert hits[k] in hits;
    }
    if hit :| hit in hits && hit - before <= line <= hit + after && 0 <= line <= lastLine {
      var k :| 0 <= k < |hits| && hits[k] == hit;
      assert Holds(Window(hits[k], before, after, lastLine), line);
    }
  }

  method MergeRegions(hits: seq<int>, before: nat, after: nat, lastLine: int) returns (regions: seq<Region>)
    requires forall k :: 0 <= k < |hits| ==> 0 <= hits[k] <= lastLine
    requires forall j, k :: 0 <= j < k < |hits| ==> hits[j] <= hits[k]
    ensures Separated(regions)
    ensures forall line :: Covers(regions, line) <==> InContext(hits, before, after, lastLine, line)
  {
    hide InContext, Covers, Separated, Holds;
    regions := [];
    NothingCovered(hits[..0], before, after, lastLine);
    for i := 0 to |hits|
      invariant Separated(regions)
      invariant regions != [] ==>
        i > 0 && regions[|regions| - 1].start <= Window(hits[i - 1], before, after, lastLine).start
      invariant forall line :: Covers(regions, line) <==> InContext(hits[..i], before, after, lastLine, line)
    {
      var w := Window(hits[i], before, after, lastLine);
      ContextGrows(hits, i, before, after, lastLine);
      var n := |regions|;
      if n > 0 && w.start <= regions[n - 1].end + 1 {
        var end := if regions[n - 1].end > w.end then regions[n - 1].end else w.end;
        Widened(regions, w, end);
        regions := regions[..n - 1] + [Region(regions[n - 1].start, end)];
      } else {
        Appended(regions, w);
        regions := regions + [w];
      }
    }
    assert hits[..|hits|] == hits;
  }

  lemma NothingCovered(hits: seq<int>, before: nat, after: nat, lastLine: int)
    requires hits == []
    ensures Separated([]) && forall line :: !Covers([], line) && !InContext(hits, before, after, lastLine, line)
  {}

  lemma ContextGrows(hits: seq<int>, i: nat, before: nat, after: nat, lastLine: int)
    requires i < |hits|
    ensures forall line :: InContext(hits[..i + 1], before, after, lastLine, line) <==>
      InContext(hits[..i], before, after, lastLine, line) || Holds(Window(hits[i], before, after, lastLine), line)
  {
    hide Holds;
    var more := hits[..i + 1];
    assert more[i] == hits[i] && forall k :: 0 <= k < i ==> more[k] == hits[..i][k];
  }

  lemma Appended(regions: seq<Region>, w: Region)
    requires Separated(regions) && w.start <= w.end
    requires regions != [] ==> regions[|regions| - 1].end + 1 < w.start
    ensures Separated(regions + [w])
    ensures forall line :: Covers(regions + [w], line) <==> Covers(regions, line) || Holds(w, line)
  {
    var more := regions + [w];
    assert more[|regions|] == w && forall k :: 0 <= k < |regions| ==> more[k] == regions[k];
    forall j | 0 <= j < |regions| ensures regions[j].end + 1 < w.start {
      if j < |regions| - 1 { assert regions[j].end + 1 < regions[|regions| - 1].start; }
    }
  }

  lemma Widened(regions: seq<Region>, w: Region, end: int)
    requires Separated(regions) && regions != [] && w.start <= w.end
    requires var last := regions[|regions| - 1];
      last.start <= w.start <= last.end + 1 && end == if last.end > w.end then last.end else w.end
    ensures var n := |regions| - 1; var more := regions[..n] + [Region(regions[n].start, end)];
      Separated(more) && forall line :: Covers(more, line) <==> Covers(regions, line) || Holds(w, line)
  {
    var n := |regions| - 1;
    var last := Region(regions[n].start, end);
    var more := regions[..n] + [last];
    assert more[n] == last && forall k :: 0 <= k < n ==> more[k] == regions[k];
    assert forall line :: Holds(last, line) <==> Holds(regions[n], line) || Holds(w, line);
    hide Holds;
  }

  lemma Before(regions: seq<Region>, line: int)
    requires Separated(regions) && regions != [] && line < regions[0].start
    ensures !Covers(regions, line)
  {}

  lemma Behind(regions: seq<Region>, line: int)
    requires Separated(regions) && regions != []
    ensures Covers(regions, regions[0].start)
    ensures Holds(regions[0], line) ==> Covers(regions, line)
    ensures line == regions[0].end + 1 ==> !Covers(regions, line)
    ensures Covers(regions[1..], line) <==> Covers(regions, line) && line > regions[0].end
  {
    assert Holds(regions[0], regions[0].start);
    if k :| 0 <= k < |regions| && Holds(regions[k], line) && k > 0 {
      assert regions[1..][k - 1] == regions[k];
    }
  }

  /** Separated regions are determined by the lines they cover, so the merge has exactly one answer. */
  lemma {:induction false} SeparatedIsCanonical(a: seq<Region>, b: seq<Region>)
    requires Separated(a) && Separated(b) && forall line :: Covers(a, line) <==> Covers(b, line)
    ensures a == b
    decreases |a|
  {
    hide Covers, Separated;
    if a == [] || b == [] {
      OneIsEmpty(a, b);
    } else {
      SameFirst(a, b);
      forall line ensures Covers(a[1..], line) <==> Covers(b[1..], line) {
        Behind(a, line);
        Behind(b, line);
      }
      assert Separated(a[1..]) && Separated(b[1..]) by { TailSeparated(a); TailSeparated(b); }
      SeparatedIsCanonical(a[1..], b[1..]);
      assert a == [a[0]] + a[1..] && b == [b[0]] + b[1..];
    }
  }

  lemma TailSeparated(a: seq<Region>)
    requires Separated(a) && a != []
    ensures Separated(a[1..])
  {}

  lemma OneIsEmpty(a: seq<Region>, b: seq<Region>)
    requires Separated(a) && Separated(b) && (a == [] || b == []) && forall line :: Covers(a, line) <==> Covers(b, line)
    ensures a == b
  {
    if a != [] { Behind(a, a[0].start); }
    if b != [] { Behind(b, b[0].start); }
  }

  lemma SameFirst(a: seq<Region>, b: seq<Region>)
    requires Separated(a) && Separated(b) && a != [] && b != [] && forall line :: Covers(a, line) <==> Covers(b, line)
    ensures a[0] == b[0]
  {
    FirstNotLater(a, b);
    FirstNotLater(b, a);
    EndNotLater(a, b);
    EndNotLater(b, a);
  }

  lemma FirstNotLater(a: seq<Region>, b: seq<Region>)
    requires Separated(a) && Separated(b) && a != [] && b != [] && forall line :: Covers(a, line) <==> Covers(b, line)
    ensures a[0].start <= b[0].start
  {
    hide Separated, Covers;
    Behind(b, b[0].start);
    if b[0].start < a[0].start { Before(a, b[0].start); }
  }

  lemma EndNotLater(a: seq<Region>, b: seq<Region>)
    requires Separated(a) && Separated(b) && a != [] && b != [] && a[0].start == b[0].start
    requires forall line :: Covers(a, line) <==> Covers(b, line)
    ensures a[0].end <= b[0].end
  {
    var line := b[0].end + 1;
    Behind(a, line);
    Behind(b, line);
    assert !Holds(a[0], line);
    assert b[0].start <= b[0].end;
  }
}
