/**
 * Walking the pages of a connection. The server is arbitrary: it may fail, repeat a page, hand out
 * the same cursor again or never end.
 */
module ReviewThreads {
  import opened Options
  import opened Text

  /** A thread or a comment. */
  datatype Node<T> = Node(id: string, value: T)

  datatype Page<T> = Page(nodes: seq<Node<T>>, hasNextPage: bool, endCursor: Option<string>)

  /** The answer to request `n` for the page behind a cursor; none when the command fails or prints no page. */
  type Server<!T> = (nat, Option<string>) -> Option<Page<T>>

  const MAX_PAGES := 100

  datatype Warning = NoWarning | CursorStuck | PageCap

  datatype Fetched<T> = Failed | Got(nodes: seq<Node<T>>, warning: Warning)

  // ------------------------------------------------------------------------------- no duplicates

  predicate HasId<T>(nodes: seq<Node<T>>, id: string) {
    exists k :: 0 <= k < |nodes| && nodes[k].id == id
  }

  /** The nodes whose id did not come before. */
  function FirstSeen<T>(nodes: seq<Node<T>>): seq<Node<T>> {
    if nodes == [] then []
    else
      var n := |nodes| - 1;
      FirstSeen(nodes[..n]) + if HasId(nodes[..n], nodes[n].id) then [] else [nodes[n]]
  }

  /** The first record of its id. */
  ghost predicate IsFirst<T>(nodes: seq<Node<T>>, node: Node<T>) {
    exists k :: 0 <= k < |nodes| && nodes[k] == node && !HasId(nodes[..k], node.id)
  }

  lemma FirstStays<T>(nodes: seq<Node<T>>, node: Node<T>, last: Node<T>)
    requires IsFirst(nodes, node)
    ensures IsFirst(nodes + [last], node)
  {
    hide HasId;
    var k :| 0 <= k < |nodes| && nodes[k] == node && !HasId(nodes[..k], node.id);
    assert (nodes + [last])[..k] == nodes[..k];
  }

  lemma LastFirst<T>(nodes: seq<Node<T>>, last: Node<T>)
    requires !HasId(nodes, last.id)
    ensures IsFirst(nodes + [last], last)
  {
    hide HasId;
    assert (nodes + [last])[..|nodes|] == nodes;
  }

  /** No id twice, no id lost, and every record the first of its id. */
  lemma {:induction false} FirstSeenOncePerId<T>(nodes: seq<Node<T>>)
    ensures var out := FirstSeen(nodes);
      && (forall i, j :: 0 <= i < j < |out| ==> out[i].id != out[j].id)
      && (forall id :: HasId(out, id) <==> HasId(nodes, id))
      && forall node :: node in out ==> IsFirst(nodes, node)
  {
    hide HasId, IsFirst;
    if nodes == [] {
      NoIds<T>();
    } else {
      var n := |nodes| - 1;
      var front, last := nodes[..n], nodes[n];
      FirstSeenOncePerId(front);
      assert nodes == front + [last];
      var out := FirstSeen(front);
      HasIdAppend(front, last);
      HasIdAppend(out, last);
      forall node | node in out ensures IsFirst(nodes, node) { FirstStays(front, node, last); }
      if !HasId(front, last.id) {
        LastFirst(front, last);
        forall i | 0 <= i < |out| ensures out[i].id != last.id { IdAt(out, i); }
        assert FirstSeen(nodes) == out + [last];
      } else {
        assert FirstSeen(nodes) == out;
      }
    }
  }

  lemma NoIds<T>()
    ensures forall id :: !HasId<T>([], id)
  {}

  lemma IdAt<T>(nodes: seq<Node<T>>, k: nat)
    requires k < |nodes|
    ensures HasId(nodes, nodes[k].id)
  {}

  lemma HasIdAppend<T>(nodes: seq<Node<T>>, node: Node<T>)
    ensures forall id :: HasId(nodes + [node], id) <==> HasId(nodes, id) || id == node.id
  {
    var more := nodes + [node];
    assert more[|nodes|] == node && forall k :: 0 <= k < |nodes| ==> more[k] == nodes[k];
  }

  lemma {:induction false} FirstSeenAll<T>(nodes: seq<Node<T>>)
    requires forall i, j :: 0 <= i < j < |nodes| ==> nodes[i].id != nodes[j].id
    ensures FirstSeen(nodes) == nodes
  {
    if nodes != [] {
      var n := |nodes| - 1;
      FirstSeenAll(nodes[..n]);
      assert nodes == nodes[..n] + [nodes[n]];
    }
  }

  /** Exactly the first record of every id is kept, in order: `at` lists where they stand. */
  ghost predicate FirstAt<T>(nodes: seq<Node<T>>, kept: seq<Node<T>>, at: seq<nat>) {
    && Chosen(at, |nodes|, (i: nat) => FirstOfId(nodes, i))
    && |kept| == |at| && forall k :: 0 <= k < |at| ==> at[k] < |nodes| && kept[k] == nodes[at[k]]
  }

  predicate FirstOfId<T>(nodes: seq<Node<T>>, i: nat) {
    i < |nodes| && forall j :: 0 <= j < i ==> nodes[j].id != nodes[i].id
  }

  lemma {:induction false} FirstSeenIs<T>(nodes: seq<Node<T>>) returns (at: seq<nat>)
    ensures FirstAt(nodes, FirstSeen(nodes), at)
    decreases |nodes|
  {
    hide FirstOfId, HasId;
    if nodes == [] {
      at := [];
    } else {
      hide FirstAt;
      var n := |nodes| - 1;
      var before := FirstSeenIs(nodes[..n]);
      IdBefore(nodes, n);
      at := FirstLater(nodes, FirstSeen(nodes[..n]), before);
    }
  }

  lemma FirstLater<T>(nodes: seq<Node<T>>, kept: seq<Node<T>>, before: seq<nat>) returns (at: seq<nat>)
    requires nodes != [] && FirstAt(nodes[..|nodes| - 1], kept, before)
    ensures FirstAt(nodes, kept + (if FirstOfId(nodes, |nodes| - 1) then [nodes[|nodes| - 1]] else []), at)
  {
    var n := |nodes| - 1;
    var front := nodes[..n];
    forall i: nat | i < n ensures FirstOfId(front, i) == FirstOfId(nodes, i) {}
    hide FirstOfId;
    assert Chosen(before, n, (i: nat) => FirstOfId(nodes, i));
    ChosenNext(before, n, (i: nat) => FirstOfId(nodes, i));
    hide Chosen;
    at := before + if FirstOfId(nodes, n) then [n] else [];
  }

  lemma IdBefore<T>(nodes: seq<Node<T>>, n: nat)
    requires n < |nodes|
    ensures HasId(nodes[..n], nodes[n].id) <==> !FirstOfId(nodes, n)
  {
    if j :| 0 <= j < n && nodes[j].id == nodes[n].id { assert nodes[..n][j].id == nodes[n].id; }
  }

  /** One page's nodes that are not in `seen` yet; `all` is everything fetched before. */
  method CollectUnseen<T>(collected: seq<Node<T>>, seen: set<string>, nodes: seq<Node<T>>, ghost all: seq<Node<T>>)
      returns (collected': seq<Node<T>>, seen': set<string>)
    requires collected == FirstSeen(all) && forall id :: id in seen <==> HasId(all, id)
    ensures collected' == FirstSeen(all + nodes) && forall id :: id in seen' <==> HasId(all + nodes, id)
  {
    hide HasId, FirstSeen;
    collected', seen' := collected, seen;
    assert all + nodes[..0] == all;
    for i := 0 to |nodes|
      invariant collected' == FirstSeen(all + nodes[..i])
      invariant forall id :: id in seen' <==> HasId(all + nodes[..i], id)
    {
      var before := all + nodes[..i];
      assert all + nodes[..i + 1] == before + [nodes[i]];
      FirstSeenAppend(before, nodes[i]);
      HasIdAppend(before, nodes[i]);
      if nodes[i].id !in seen' {
        seen' := seen' + {nodes[i].id};
        collected' := collected' + [nodes[i]];
      }
    }
    assert nodes[..|nodes|] == nodes;
  }

  lemma FirstSeenAppend<T>(nodes: seq<Node<T>>, node: Node<T>)
    ensures FirstSeen(nodes + [node]) == FirstSeen(nodes) + if HasId(nodes, node.id) then [] else [node]
  {
    hide HasId;
    assert (nodes + [node])[..|nodes|] == nodes;
  }

  // ------------------------------------------------------------------------------------ the pages

  /** The cursor of request `n`: the one given, then the end of the page before. */
  function CursorAt<T>(server: Server<T>, start: Option<string>, n: nat): Option<string>
    decreases n, 0
  {
    if n == 0 then start else EndCursor(server, start, n - 1)
  }

  function PageAt<T>(server: Server<T>, start: Option<string>, n: nat): Option<Page<T>>
    decreases n, 1
  {
    server(n, CursorAt(server, start, n))
  }

  function EndCursor<T>(server: Server<T>, start: Option<string>, n: nat): Option<string>
    decreases n, 2
  {
    var page := PageAt(server, start, n);
    if page.Some? then page.value.endCursor else None
  }

  /** The page says that it is the last, or offers no way on. */
  predicate Terminal<T>(page: Page<T>) {
    !page.hasNextPage || page.endCursor == None || page.endCursor == Some("")
  }

  /** The page ends where the one before ended. */
  predicate Stuck<T>(server: Server<T>, start: Option<string>, n: nat) {
    n > 0 && EndCursor(server, start, n) == EndCursor(server, start, n - 1)
  }

  /** Request `n` brings a page and calls for another request. */
  predicate GoesOn<T>(server: Server<T>, start: Option<string>, n: nat) {
    var page := PageAt(server, start, n);
    page.Some? && !Terminal(page.value) && !Stuck(server, start, n)
  }

  /** All nodes of the first `n` pages. */
  function NodesOf<T>(server: Server<T>, start: Option<string>, n: nat): seq<Node<T>> {
    if n == 0 then []
    else
      var page := PageAt(server, start, n - 1);
      NodesOf(server, start, n - 1) + if page.Some? then page.value.nodes else []
  }

  /** What the walk returns when it makes `n` requests. */
  function Outcome<T>(server: Server<T>, start: Option<string>, n: nat): Fetched<T>
    requires n > 0
  {
    var page := PageAt(server, start, n - 1);
    if page.None? then Failed
    else
      Got(FirstSeen(NodesOf(server, start, n)),
          if Terminal(page.value) then NoWarning else if Stuck(server, start, n - 1) then CursorStuck else PageCap)
  }

  /** The walk stops at the first page that does not go on, or at the cap; every page fetched is kept. */
  method Paginate<T>(server: Server<T>, start: Option<string>) returns (r: Fetched<T>, pageCount: nat)
    ensures 0 < pageCount <= 100 && r == Outcome(server, start, pageCount)
    ensures forall k: nat :: k < pageCount - 1 ==> GoesOn(server, start, k)
    ensures pageCount == 100 || !GoesOn(server, start, pageCount - 1)
  {
    hide FirstSeen, HasId, PageAt, Terminal;
    var collected: seq<Node<T>>, seen: set<string> := [], {};
    Nothing(server, start);
    var cursor, prevEndCursor: Option<string> := start, None;
    pageCount := 0;
    while pageCount < MAX_PAGES
      invariant pageCount <= MAX_PAGES
      invariant forall k: nat :: k < pageCount ==> GoesOn(server, start, k)
      invariant cursor == CursorAt(server, start, pageCount)
      invariant pageCount > 0 ==> prevEndCursor == EndCursor(server, start, pageCount - 1)
      invariant pageCount == 0 ==> prevEndCursor == None
      invariant collected == FirstSeen(NodesOf(server, start, pageCount))
      invariant forall id :: id in seen <==> HasId(NodesOf(server, start, pageCount), id)
    {
      var r := server(pageCount, cursor);
      PageIs(server, start, pageCount);
      if r.None? { return Failed, pageCount + 1; }
      var page := r.value;
      collected, seen := CollectUnseen(collected, seen, page.nodes, NodesOf(server, start, pageCount));
      pageCount := pageCount + 1;
      TerminalIs(page);
      if !page.hasNextPage || page.endCursor == None || page.endCursor == Some("") {
        return Got(collected, NoWarning), pageCount;
      }
      if page.endCursor == prevEndCursor {
        return Got(collected, CursorStuck), pageCount;
      }
      prevEndCursor, cursor := page.endCursor, page.endCursor;
    }
    assert GoesOn(server, start, pageCount - 1);
    return Got(collected, PageCap), pageCount;
  }

  lemma Nothing<T>(server: Server<T>, start: Option<string>)
    ensures NodesOf(server, start, 0) == [] && FirstSeen<T>([]) == [] && forall id :: !HasId<T>([], id)
  {}

  lemma PageIs<T>(server: Server<T>, start: Option<string>, n: nat)
    ensures PageAt(server, start, n) == server(n, CursorAt(server, start, n))
  {}

  lemma TerminalIs<T>(page: Page<T>)
    ensures Terminal(page) <==> !page.hasNextPage || page.endCursor == None || page.endCursor == Some("")
  {}

  // ---------------------------------------------------------------------- the walk, page by page

  /** The pages are the server's answers: the first behind the start, each other behind the end of the one before. */
  ghost predicate IsWalk<T>(server: Server<T>, start: Option<string>, pages: seq<Page<T>>) {
    forall k: nat :: k < |pages| ==> AnswersWith(server, k, Behind(start, pages, k), pages[k])
  }

  /** Where page `k` starts. */
  function Behind<T>(start: Option<string>, pages: seq<Page<T>>, k: nat): Option<string>
    requires k <= |pages|
  {
    if k == 0 then start else pages[k - 1].endCursor
  }

  ghost predicate AnswersWith<T>(server: Server<T>, k: nat, cursor: Option<string>, page: Page<T>) {
    server(k, cursor) == Some(page)
  }

  /** A page that leads no further. */
  predicate IsEnd<T>(page: Page<T>) {
    !page.hasNextPage || page.endCursor in {None, Some("")}
  }

  /** A page that ends where the one before it ended. */
  predicate Repeats<T>(pages: seq<Page<T>>, k: nat)
    requires k < |pages|
  {
    k > 0 && pages[k].endCursor == pages[k - 1].endCursor
  }

  function AllNodes<T>(pages: seq<Page<T>>): seq<Node<T>> {
    if pages == [] then [] else AllNodes(pages[..|pages| - 1]) + pages[|pages| - 1].nodes
  }

  lemma CursorStep<T>(server: Server<T>, start: Option<string>, n: nat)
    ensures CursorAt(server, start, n) == if n == 0 then start else EndCursor(server, start, n - 1)
    ensures PageAt(server, start, n).Some? ==> EndCursor(server, start, n) == PageAt(server, start, n).value.endCursor
  {
    hide PageAt;
  }

  lemma NodesStep<T>(server: Server<T>, start: Option<string>, n: nat, page: Page<T>)
    requires PageAt(server, start, n) == Some(page)
    ensures NodesOf(server, start, n + 1) == NodesOf(server, start, n) + page.nodes
  {
    hide PageAt;
  }

  lemma WalkAt<T>(server: Server<T>, start: Option<string>, pages: seq<Page<T>>, n: nat)
    requires IsWalk(server, start, pages) && n < |pages|
    ensures server(n, Behind(start, pages, n)) == Some(pages[n])
  {
    hide Behind;
    assert AnswersWith(server, n, Behind(start, pages, n), pages[n]);
  }

  lemma {:induction false} WalkPage<T>(server: Server<T>, start: Option<string>, pages: seq<Page<T>>, n: nat)
    requires IsWalk(server, start, pages) && n < |pages|
    ensures PageAt(server, start, n) == Some(pages[n]) && EndCursor(server, start, n) == pages[n].endCursor
    decreases n
  {
    hide PageAt, CursorAt, EndCursor, IsWalk;
    WalkAt(server, start, pages, n);
    CursorStep(server, start, n);
    PageIs(server, start, n);
    if n > 0 { WalkPage(server, start, pages, n - 1); }
  }

  lemma {:induction false} WalkIs<T>(server: Server<T>, start: Option<string>, pages: seq<Page<T>>, n: nat)
    requires IsWalk(server, start, pages) && n < |pages|
    ensures PageAt(server, start, n) == Some(pages[n]) && EndCursor(server, start, n) == pages[n].endCursor
    ensures NodesOf(server, start, n + 1) == AllNodes(pages[..n + 1])
    decreases n
  {
    hide *;
    WalkPage(server, start, pages, n);
    NodesStep(server, start, n, pages[n]);
    var front := pages[..n + 1];
    AllNodesStep(front);
    assert front[..n] == pages[..n] && front[n] == pages[n];
    if n > 0 {
      WalkIs(server, start, pages, n - 1);
    } else {
      NothingWalked(server, start);
      assert pages[..n] == [];
    }
  }

  lemma NothingWalked<T>(server: Server<T>, start: Option<string>)
    ensures NodesOf(server, start, 0) == [] && AllNodes<T>([]) == []
  {}

  lemma AllNodesStep<T>(pages: seq<Page<T>>)
    requires pages != []
    ensures AllNodes(pages) == AllNodes(pages[..|pages| - 1]) + pages[|pages| - 1].nodes
  {}

  /**
   * Which pages are walked: every page but the last leads on to one with another end, and the last is an
   * end, repeats the end before it or is the hundredth; what is returned is every node once and what stopped it.
   */
  lemma WalkDecides<T>(server: Server<T>, start: Option<string>, pages: seq<Page<T>>)
    requires pages != [] && IsWalk(server, start, pages)
    ensures var n := |pages|;
      && Outcome(server, start, n) == Got(
           FirstSeen(AllNodes(pages)),
           if IsEnd(pages[n - 1]) then NoWarning else if Repeats(pages, n - 1) then CursorStuck else PageCap)
      && forall k: nat :: k < n ==> (GoesOn(server, start, k) <==> !IsEnd(pages[k]) && !Repeats(pages, k))
  {
    hide FirstSeen, PageAt, NodesOf, AllNodes, IsWalk;
    var n := |pages|;
    WalkIs(server, start, pages, n - 1);
    assert pages[..n - 1 + 1] == pages;
    forall k: nat | k < n ensures GoesOn(server, start, k) <==> !IsEnd(pages[k]) && !Repeats(pages, k) {
      WalkIs(server, start, pages, k);
      if k > 0 { WalkIs(server, start, pages, k - 1); }
    }
    if n > 1 { WalkIs(server, start, pages, n - 2); }
  }

  /** A request that brings no page ends the walk with nothing. */
  lemma FailedWalk<T>(server: Server<T>, start: Option<string>, pages: seq<Page<T>>)
    requires IsWalk(server, start, pages)
    requires server(|pages|, Behind(start, pages, |pages|)) == None
    ensures Outcome(server, start, |pages| + 1) == Failed
  {
    hide PageAt, CursorAt, EndCursor, NodesOf, AllNodes, IsWalk;
    if pages != [] { WalkIs(server, start, pages, |pages| - 1); }
    CursorStep(server, start, |pages|);
    PageIs(server, start, |pages|);
  }

  // -------------------------------------------------------------------------------- completeness

  function Flatten<T>(pages: seq<seq<Node<T>>>): seq<Node<T>> {
    if pages == [] then [] else Flatten(pages[..|pages| - 1]) + pages[|pages| - 1]
  }

  /** The server cuts its nodes into pages and gives each its own way on to the next. */
  ghost predicate Serves<T>(server: Server<T>, start: Option<string>, pages: seq<seq<Node<T>>>, cursors: seq<string>) {
    && 0 < |pages| == |cursors|
    && (forall k :: 0 <= k < |cursors| ==> cursors[k] != "" && (k > 0 ==> cursors[k - 1] != cursors[k]))
    && forall k: nat :: k < |pages| ==> ServesPage(server, start, pages, cursors, k)
  }

  ghost predicate ServesPage<T>(
      server: Server<T>, start: Option<string>, pages: seq<seq<Node<T>>>, cursors: seq<string>, k: nat)
    requires k < |pages| == |cursors|
  {
    var cursor := if k == 0 then start else Some(cursors[k - 1]);
    server(k, cursor) == Some(Page(pages[k], k + 1 < |pages|, Some(cursors[k])))
  }

  lemma {:induction false} ServedPage<T>(
      server: Server<T>, start: Option<string>, pages: seq<seq<Node<T>>>, cursors: seq<string>, n: nat)
    requires Serves(server, start, pages, cursors) && n < |pages|
    ensures PageAt(server, start, n) == Some(Page(pages[n], n + 1 < |pages|, Some(cursors[n])))
  {
    if n > 0 {
      ServedPage(server, start, pages, cursors, n - 1);
      assert CursorAt(server, start, n) == EndCursor(server, start, n - 1) == Some(cursors[n - 1]);
    }
    PageIs(server, start, n);
    assert ServesPage(server, start, pages, cursors, n);
  }

  lemma {:induction false} ServedNodes<T>(
      server: Server<T>, start: Option<string>, pages: seq<seq<Node<T>>>, cursors: seq<string>, n: nat)
    requires Serves(server, start, pages, cursors) && n <= |pages|
    ensures NodesOf(server, start, n) == Flatten(pages[..n])
  {
    hide Serves, PageAt;
    if n > 0 {
      ServedNodes(server, start, pages, cursors, n - 1);
      ServedPage(server, start, pages, cursors, n - 1);
      assert pages[..n][..n - 1] == pages[..n - 1];
    }
  }

  /** From a server that ends within the cap, everything arrives once and without a warning. */
  lemma CompleteWhenServed<T>(
      server: Server<T>, start: Option<string>, pages: seq<seq<Node<T>>>, cursors: seq<string>, n: nat)
    requires Serves(server, start, pages, cursors) && |pages| <= MAX_PAGES
    requires forall i, j :: 0 <= i < j < |Flatten(pages)| ==> Flatten(pages)[i].id != Flatten(pages)[j].id
    requires 0 < n <= MAX_PAGES && forall k: nat :: k < n - 1 ==> GoesOn(server, start, k)
    requires n == MAX_PAGES || !GoesOn(server, start, n - 1)
    ensures n == |pages| && Outcome(server, start, n) == Got(Flatten(pages), NoWarning)
  {
    hide FirstSeen, PageAt, NodesOf, Flatten, Serves, GoesOn, Terminal, Stuck;
    StopsAtLast(server, start, pages, cursors, n);
    ServedLast(server, start, pages, cursors);
    ServedNodes(server, start, pages, cursors, n);
    assert pages[..n] == pages;
    FirstSeenAll(Flatten(pages));
  }

  lemma StopsAtLast<T>(server: Server<T>, start: Option<string>, pages: seq<seq<Node<T>>>, cursors: seq<string>, n: nat)
    requires Serves(server, start, pages, cursors) && |pages| <= MAX_PAGES
    requires 0 < n <= MAX_PAGES && forall k: nat :: k < n - 1 ==> GoesOn(server, start, k)
    requires n == MAX_PAGES || !GoesOn(server, start, n - 1)
    ensures n == |pages|
  {
    assert |pages| > 0;
    hide PageAt, Serves, GoesOn;
    ServedGoesOn(server, start, pages, cursors, |pages| - 1);
    if n - 1 < |pages| { ServedGoesOn(server, start, pages, cursors, n - 1); }
  }

  lemma ServedLast<T>(server: Server<T>, start: Option<string>, pages: seq<seq<Node<T>>>, cursors: seq<string>)
    requires Serves(server, start, pages, cursors)
    ensures |pages| > 0
    ensures var page := PageAt(server, start, |pages| - 1); page.Some? && Terminal(page.value)
  {
    assert |pages| > 0;
    hide PageAt, Serves;
    ServedPage(server, start, pages, cursors, |pages| - 1);
  }

  lemma ServedGoesOn<T>(
      server: Server<T>, start: Option<string>, pages: seq<seq<Node<T>>>, cursors: seq<string>, k: nat)
    requires Serves(server, start, pages, cursors) && k < |pages|
    ensures GoesOn(server, start, k) <==> k + 1 < |pages|
  {
    hide PageAt;
    ServedPage(server, start, pages, cursors, k);
    if k > 0 { ServedPage(server, start, pages, cursors, k - 1); }
  }
}
