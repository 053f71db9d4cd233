/**
 * Redaction of an object graph that may share and cycle: one traversal copies, the other overwrites
 * in place. Both follow one policy; the graph read back after the one is what the other returned.
 */
module Redaction {

  datatype Value = Str(s: string) | Prim(id: int) | Ref(o: Obj)
  datatype Slot = Slot(key: string, value: Value)

  /** An array or a record: its entries in order. */
  class Obj {
    const isArray: bool
    var slots: seq<Slot>
  }

  /** The set of visited objects both traversals thread through their recursion. */
  class Seen {
    var items: set<Obj>

    constructor ()
      ensures items == {}
    {
      items := {};
    }
  }

  /** Which key names hide their value, and how other text is scrubbed. */
  datatype Policy = Policy(isSecretKey: string -> bool, scrub: string -> string)

  const REDACTED := "[REDACTED]"

  // ------------------------------------------------------------------- what redaction means

  /** The contents of a graph at one moment. */
  type Graph = map<Obj, seq<Slot>>

  ghost predicate Closed(g: Graph) {
    forall o, k :: o in g && 0 <= k < |g[o]| && g[o][k].value.Ref? ==> g[o][k].value.o in g
  }

  predicate IsSecret(p: Policy, isArray: bool, slot: Slot) {
    !isArray && p.isSecretKey(slot.key)
  }

  function RedactSlot(p: Policy, isArray: bool, slot: Slot): Slot {
    if IsSecret(p, isArray, slot) then slot.(value := Str(REDACTED))
    else if slot.value.Str? then slot.(value := Str(p.scrub(slot.value.s)))
    else slot
  }

  function RedactSlots(p: Policy, isArray: bool, slots: seq<Slot>): (r: seq<Slot>)
    ensures |r| == |slots|
    ensures forall k :: 0 <= k < |slots| ==> r[k] == RedactSlot(p, isArray, slots[k])
  {
    seq(|slots|, k requires 0 <= k < |slots| => RedactSlot(p, isArray, slots[k]))
  }

  /** An entry the traversals go into. */
  predicate Followed(p: Policy, isArray: bool, slot: Slot) {
    slot.value.Ref? && !IsSecret(p, isArray, slot)
  }

  /** The object graph unfolded, with a marker where an object would hold itself. */
  datatype Tree = Text(s: string) | Plain(id: int) | Cycle | Node(isArray: bool, kids: seq<Kid>)
  datatype Kid = Kid(key: string, tree: Tree)

  /** The redacted unfolding of `v` below the objects `above`. */
  ghost function Redacted(p: Policy, g: Graph, v: Value, above: set<Obj>): Tree
    requires Closed(g) && (v.Ref? ==> v.o in g)
    decreases g.Keys - above, 0
  {
    match v
    case Str(s) => Text(p.scrub(s))
    case Prim(id) => Plain(id)
    case Ref(o) =>
      if o in above then Cycle
      else
        assert forall k :: 0 <= k < |g[o]| && g[o][k].value.Ref? ==> g[o][k].value.o in g;
        Node(o.isArray, RedactedKids(p, g, o.isArray, g[o], above + {o}))
  }

  ghost function RedactedKids(p: Policy, g: Graph, isArray: bool, slots: seq<Slot>, above: set<Obj>): (kids: seq<Kid>)
    requires Closed(g)
    requires forall k :: 0 <= k < |slots| && slots[k].value.Ref? ==> slots[k].value.o in g
    ensures |kids| == |slots|
    decreases g.Keys - above, 1, |slots|
  {
    if slots == [] then []
    else
      var n := |slots| - 1;
      RedactedKids(p, g, isArray, slots[..n], above)
      + [Kid(slots[n].key,
             if IsSecret(p, isArray, slots[n]) then Text(REDACTED) else Redacted(p, g, slots[n].value, above))]
  }

  /** No key hides anything and text stays as it is: reading a graph back. */
  const AS_IS := Policy(k => false, s => s)

  // ------------------------------------------------------------ overwriting agrees with copying

  /** After the traversal the objects in `done` are redacted, slot by slot, and all others untouched. */
  ghost predicate Overwritten(p: Policy, g: Graph, g': Graph, done: set<Obj>) {
    && g'.Keys == g.Keys
    && forall o :: o in g ==> g'[o] == if o in done then RedactSlots(p, o.isArray, g[o]) else g[o]
  }

  /** Every object that an object in `done` leads to is in `done`. */
  ghost predicate Complete(p: Policy, g: Graph, done: set<Obj>) {
    forall o, k :: o in done && o in g && 0 <= k < |g[o]| && Followed(p, o.isArray, g[o][k]) ==> g[o][k].value.o in done
  }

  lemma {:induction false} OverwritingAgrees(p: Policy, g: Graph, g': Graph, done: set<Obj>, v: Value, above: set<Obj>)
    requires Closed(g) && Closed(g') && Overwritten(p, g, g', done) && Complete(p, g, done)
    requires v.Ref? && v.o in g && v.o in done
    ensures Redacted(AS_IS, g', v, above) == Redacted(p, g, v, above)
    decreases g.Keys - above, 0
  {
    var o := v.o;
    if o !in above {
      var slots, slots' := g[o], g'[o];
      assert slots' == RedactSlots(p, o.isArray, slots);
      KidsAgree(p, g, g', done, o.isArray, slots, slots', above + {o});
    }
  }

  lemma {:induction false} KidsAgree(
    p: Policy, g: Graph, g': Graph, done: set<Obj>, isArray: bool, slots: seq<Slot>, slots': seq<Slot>, above: set<Obj>)
    requires Closed(g) && Closed(g') && Overwritten(p, g, g', done) && Complete(p, g, done)
    requires forall k :: 0 <= k < |slots| && slots[k].value.Ref? ==> slots[k].value.o in g
    requires forall k :: 0 <= k < |slots| && Followed(p, isArray, slots[k]) ==> slots[k].value.o in done
    requires slots' == RedactSlots(p, isArray, slots)
    ensures RedactedKids(AS_IS, g', isArray, slots', above) == RedactedKids(p, g, isArray, slots, above)
    decreases g.Keys - above, 1, |slots|
  {
    hide Closed, Overwritten, Complete, Redacted, RedactSlot, RedactedKids, KidOf;
    KeysStay(p, g, g', done);
    RefsStay(p, isArray, slots);
    if slots != [] {
      var n := |slots| - 1;
      var front, front' := slots[..n], slots'[..n];
      assert front' == RedactSlots(p, isArray, front);
      assert slots'[n] == RedactSlot(p, isArray, slots[n]);
      assert forall k :: 0 <= k < n ==> front[k] == slots[k] && front'[k] == slots'[k];
      KidsAgree(p, g, g', done, isArray, front, front', above);
      if Followed(p, isArray, slots[n]) {
        OverwritingAgrees(p, g, g', done, slots[n].value, above);
      }
      LastKidAgrees(p, g, g', isArray, slots[n], above);
      KidsStep(p, g, isArray, slots, above);
      KidsStep(AS_IS, g', isArray, slots', above);
    } else {
      NoKids(p, g, isArray, slots, above);
      NoKids(AS_IS, g', isArray, slots', above);
    }
  }

  lemma NoKids(p: Policy, g: Graph, isArray: bool, slots: seq<Slot>, above: set<Obj>)
    requires Closed(g) && slots == []
    ensures RedactedKids(p, g, isArray, slots, above) == []
  {}

  lemma KidsStep(p: Policy, g: Graph, isArray: bool, slots: seq<Slot>, above: set<Obj>)
    requires Closed(g) && slots != []
    requires forall k :: 0 <= k < |slots| && slots[k].value.Ref? ==> slots[k].value.o in g
    ensures var n := |slots| - 1;
      RedactedKids(p, g, isArray, slots, above) ==
        RedactedKids(p, g, isArray, slots[..n], above) + [KidOf(p, g, isArray, slots[n], above)]
  {
    hide Closed, Redacted;
  }

  lemma RefsStay(p: Policy, isArray: bool, slots: seq<Slot>)
    ensures forall k :: 0 <= k < |slots| && RedactSlots(p, isArray, slots)[k].value.Ref? ==>
      RedactSlots(p, isArray, slots)[k] == slots[k]
  {}

  lemma KeysStay(p: Policy, g: Graph, g': Graph, done: set<Obj>)
    requires Overwritten(p, g, g', done)
    ensures g'.Keys == g.Keys
  {}

  ghost function KidOf(p: Policy, g: Graph, isArray: bool, slot: Slot, above: set<Obj>): Kid
    requires Closed(g) && (slot.value.Ref? ==> slot.value.o in g)
  {
    Kid(slot.key, if IsSecret(p, isArray, slot) then Text(REDACTED) else Redacted(p, g, slot.value, above))
  }

  lemma LastKidAgrees(p: Policy, g: Graph, g': Graph, isArray: bool, slot: Slot, above: set<Obj>)
    requires Closed(g) && Closed(g') && g'.Keys == g.Keys && (slot.value.Ref? ==> slot.value.o in g)
    requires Followed(p, isArray, slot) ==> Redacted(AS_IS, g', slot.value, above) == Redacted(p, g, slot.value, above)
    ensures var slot' := RedactSlot(p, isArray, slot);
      && (slot'.value.Ref? ==> slot'.value.o in g')
      && KidOf(AS_IS, g', isArray, slot', above) == KidOf(p, g, isArray, slot, above)
  {
    hide Closed, RedactedKids;
  }

  // ---------------------------------------------------------------- markers only at back-edges

  /** The path follows entries that the traversals go into, through the objects `os`. */
  ghost predicate Walks(p: Policy, g: Graph, os: seq<Obj>, path: seq<nat>) {
    && |os| == |path| + 1
    && (forall i :: 0 <= i < |os| ==> os[i] in g)
    && forall i :: 0 <= i < |path| ==>
      && path[i] < |g[os[i]]|
      && Followed(p, os[i].isArray, g[os[i]][path[i]])
      && g[os[i]][path[i]].value.o == os[i + 1]
  }

  ghost predicate NoRepeats(os: seq<Obj>) {
    forall i, j :: 0 <= i < j < |os| ==> os[i] != os[j]
  }

  /** The path leads from node to node of the tree. */
  ghost predicate Leads(t: Tree, path: seq<nat>)
    decreases |path|
  {
    path == [] || (t.Node? && path[0] < |t.kids| && Leads(t.kids[path[0]].tree, path[1..]))
  }

  /** The part of a tree at the end of a path. */
  ghost function At(t: Tree, path: seq<nat>): Tree
    requires Leads(t, path)
    decreases |path|
  {
    if path == [] then t else At(t.kids[path[0]].tree, path[1..])
  }

  lemma {:induction false} KidAt(p: Policy, g: Graph, isArray: bool, slots: seq<Slot>, above: set<Obj>, k: nat)
    requires Closed(g) && k < |slots| && Followed(p, isArray, slots[k])
    requires forall i :: 0 <= i < |slots| && slots[i].value.Ref? ==> slots[i].value.o in g
    ensures RedactedKids(p, g, isArray, slots, above)[k].tree == Redacted(p, g, slots[k].value, above)
    decreases |slots|
  {
    var n := |slots| - 1;
    if k < n { KidAt(p, g, isArray, slots[..n], above, k); }
  }

  /**
   * At the end of a path whose earlier objects are all different, the copy holds a cycle marker if and
   * only if the last object already lies on the path; otherwise the object itself, unfolded.
   */
  lemma {:induction false} MarkerIffBackEdge(p: Policy, g: Graph, os: seq<Obj>, path: seq<nat>, above: set<Obj>)
    requires Closed(g) && Walks(p, g, os, path) && NoRepeats(os[..|path|])
    requires forall i :: 0 <= i < |path| ==> os[i] !in above
    ensures var t := Redacted(p, g, Ref(os[0]), above);
      && Leads(t, path)
      && (At(t, path).Cycle? <==> os[|path|] in above || os[|path|] in os[..|path|])
    decreases |path|
  {
    hide Redacted, RedactedKids, Walks, NoRepeats, Closed, Followed;
    assert os[0] in g && |os| == |path| + 1 by { WalksFirst(p, g, os, path); }
    RedactedRef(p, g, os[0], above);
    if path != [] {
      var o, k := os[0], path[0];
      WalksTail(p, g, os, path);
      KidUnfolded(p, g, os, path, above + {o});
      MarkerIffBackEdge(p, g, os[1..], path[1..], above + {o});
    }
  }

  /** The first `n` objects on a path. */
  ghost function Passed(os: seq<Obj>, n: nat): set<Obj>
    requires n <= |os|
  {
    set i | 0 <= i < n :: os[i]
  }

  /** An object was gone into, or would have been but for a cycle. */
  predicate Opened(t: Tree) { t.Node? || t.Cycle? }

  /** What stands in the copy for one entry, said without the traversals. */
  ghost predicate EntryRedacted(p: Policy, isArray: bool, slot: Slot, kid: Kid, onPath: set<Obj>) {
    && kid.key == slot.key
    && if !isArray && p.isSecretKey(slot.key) then kid.tree == Text("[REDACTED]")
       else match slot.value
         case Str(s) => kid.tree == Text(p.scrub(s))
         case Prim(id) => kid.tree == Plain(id)
         case Ref(o) => if o in onPath then kid.tree == Cycle else kid.tree.Node? && kid.tree.isArray == o.isArray
  }

  /**
   * Wherever a path through the graph leads: the copy of the object there has an entry for each of its
   * entries, hidden by its key, scrubbed, kept, cut off as a cycle or opened as the entry says.
   */
  lemma CopyAt(p: Policy, g: Graph, os: seq<Obj>, path: seq<nat>)
    requires Closed(g) && Walks(p, g, os, path) && NoRepeats(os)
    ensures var t := Redacted(p, g, Ref(os[0]), {});
      var o := os[|path|];
      && Leads(t, path) && At(t, path).Node? && At(t, path).isArray == o.isArray && |At(t, path).kids| == |g[o]|
      && forall k :: 0 <= k < |g[o]| ==>
           && EntryRedacted(p, o.isArray, g[o][k], At(t, path).kids[k], Passed(os, |os|))
           && (Followed(p, o.isArray, g[o][k]) <==> Opened(At(t, path).kids[k].tree))
  {
    hide Redacted, RedactedKids, Walks, NoRepeats, Closed, Leads, At, EntryRedacted, Followed;
    WalksFirst(p, g, os, path);
    var o, onPath := os[|path|], Passed(os, |os|);
    SubtreeAt(p, g, os, path, {});
    var above := Passed(os, |path|);
    assert onPath == {} + above + {o} && o !in above by { LastApart(os, |path|); }
    WalksLast(p, g, os, path);
    RedactedRef(p, g, o, above);
    assert {} + above == above;
    EntriesRedacted(p, g, o.isArray, g[o], above + {o});
  }

  lemma LastApart(os: seq<Obj>, n: nat)
    requires NoRepeats(os) && |os| == n + 1
    ensures os[n] !in Passed(os, n)
  {}

  lemma WalksLast(p: Policy, g: Graph, os: seq<Obj>, path: seq<nat>)
    requires Walks(p, g, os, path)
    ensures |os| == |path| + 1 && os[|path|] in g
  {}

  lemma {:induction false} EntriesRedacted(p: Policy, g: Graph, isArray: bool, slots: seq<Slot>, above: set<Obj>)
    requires Closed(g) && forall k :: 0 <= k < |slots| && slots[k].value.Ref? ==> slots[k].value.o in g
    ensures forall k :: 0 <= k < |slots| ==>
      && EntryRedacted(p, isArray, slots[k], RedactedKids(p, g, isArray, slots, above)[k], above)
      && (Followed(p, isArray, slots[k]) <==> Opened(RedactedKids(p, g, isArray, slots, above)[k].tree))
    decreases |slots|
  {
    hide Closed;
    if slots != [] {
      var n := |slots| - 1;
      var kids, front := RedactedKids(p, g, isArray, slots, above), RedactedKids(p, g, isArray, slots[..n], above);
      assert kids[..n] == front && kids[n].key == slots[n].key;
      assert kids[n].tree ==
        if IsSecret(p, isArray, slots[n]) then Text(REDACTED) else Redacted(p, g, slots[n].value, above);
      OneEntry(p, g, isArray, slots[n], kids[n], above);
      hide *;
      EntriesRedacted(p, g, isArray, slots[..n], above);
      forall k | 0 <= k < |slots|
        ensures EntryRedacted(p, isArray, slots[k], kids[k], above)
        ensures Followed(p, isArray, slots[k]) <==> Opened(kids[k].tree)
      {
        if k < n { assert kids[k] == front[k] && slots[..n][k] == slots[k]; }
      }
    }
  }

  lemma OneEntry(p: Policy, g: Graph, isArray: bool, slot: Slot, kid: Kid, above: set<Obj>)
    requires Closed(g) && (slot.value.Ref? ==> slot.value.o in g) && kid.key == slot.key
    requires kid.tree == if IsSecret(p, isArray, slot) then Text(REDACTED) else Redacted(p, g, slot.value, above)
    ensures EntryRedacted(p, isArray, slot, kid, above) && (Followed(p, isArray, slot) <==> Opened(kid.tree))
  {
    hide Closed, RedactedKids;
  }

  /** What a path of the tree leads to is the unfolding of the object it leads to, below those passed. */
  lemma {:induction false} SubtreeAt(p: Policy, g: Graph, os: seq<Obj>, path: seq<nat>, above: set<Obj>)
    requires Closed(g) && Walks(p, g, os, path) && NoRepeats(os)
    requires forall i :: 0 <= i < |os| ==> os[i] !in above
    ensures |os| == |path| + 1 && (forall i :: 0 <= i < |os| ==> os[i] in g)
    ensures var t := Redacted(p, g, Ref(os[0]), above);
      && Leads(t, path)
      && At(t, path) == Redacted(p, g, Ref(os[|path|]), above + Passed(os, |path|))
    decreases |path|
  {
    hide Redacted, RedactedKids, NoRepeats, Closed, Followed;
    WalksFirst(p, g, os, path);
    RedactedRef(p, g, os[0], above);
    if path == [] {
      assert above + Passed(os, 0) == above;
    } else {
      var o := os[0];
      FrontApart(os, |path|);
      WalksTail(p, g, os, path);
      KidUnfolded(p, g, os, path, above + {o});
      WholeTail(os);
      SubtreeAt(p, g, os[1..], path[1..], above + {o});
      PassedSets(os, |path|, above);
    }
  }

  lemma FrontApart(os: seq<Obj>, n: nat)
    requires NoRepeats(os) && n <= |os|
    ensures NoRepeats(os[..n])
  {}

  lemma WholeTail(os: seq<Obj>)
    requires NoRepeats(os) && os != []
    ensures NoRepeats(os[1..]) && forall i :: 0 <= i < |os| - 1 ==> os[1..][i] != os[0]
  {}

  lemma PassedSets(os: seq<Obj>, n: nat, above: set<Obj>)
    requires 1 <= n <= |os|
    ensures above + Passed(os, n) == above + {os[0]} + Passed(os[1..], n - 1)
  {
    var x, y := Passed(os, n), Passed(os[1..], n - 1);
    forall o | o in x ensures o in {os[0]} + y {
      var i :| 0 <= i < n && os[i] == o;
      if i > 0 { assert os[1..][i - 1] == o; }
    }
    forall o | o in y ensures o in x {
      var i :| 0 <= i < n - 1 && os[1..][i] == o;
      assert os[i + 1] == o;
    }
    assert os[0] in x;
  }

  lemma WalksFirst(p: Policy, g: Graph, os: seq<Obj>, path: seq<nat>)
    requires Walks(p, g, os, path)
    ensures |os| == |path| + 1 && os[0] in g
  {}

  lemma RedactedRef(p: Policy, g: Graph, o: Obj, above: set<Obj>)
    requires Closed(g) && o in g
    ensures forall k :: 0 <= k < |g[o]| && g[o][k].value.Ref? ==> g[o][k].value.o in g
    ensures Redacted(p, g, Ref(o), above) ==
      if o in above then Cycle else Node(o.isArray, RedactedKids(p, g, o.isArray, g[o], above + {o}))
  {
    hide Closed;
    SlotsInGraph(g, o);
  }

  lemma SlotsInGraph(g: Graph, o: Obj)
    requires Closed(g) && o in g
    ensures forall k :: 0 <= k < |g[o]| && g[o][k].value.Ref? ==> g[o][k].value.o in g
  {}

  /** What is left of a path behind its first object. */
  lemma WalksTail(p: Policy, g: Graph, os: seq<Obj>, path: seq<nat>)
    requires Walks(p, g, os, path) && path != [] && NoRepeats(os[..|path|])
    ensures |os| == |path| + 1 && os[..|path|] == [os[0]] + os[1..][..|path| - 1]
    ensures Walks(p, g, os[1..], path[1..]) && NoRepeats(os[1..][..|path| - 1])
    ensures forall i :: 0 <= i < |path| - 1 ==> os[1..][i] != os[0]
  {
    hide Followed;
    forall i | 0 <= i < |path| - 1 ensures os[1..][i] != os[0] {
      assert os[..|path|][0] != os[..|path|][i + 1];
    }
    assert forall i :: 0 <= i < |path| - 1 ==> os[1..][i] == os[..|path|][i + 1];
  }

  lemma KidUnfolded(p: Policy, g: Graph, os: seq<Obj>, path: seq<nat>, above: set<Obj>)
    requires Closed(g) && Walks(p, g, os, path) && path != []
    requires os[0] in g && forall k :: 0 <= k < |g[os[0]]| && g[os[0]][k].value.Ref? ==> g[os[0]][k].value.o in g
    ensures path[0] < |g[os[0]]| && os[1] in g
    ensures RedactedKids(p, g, os[0].isArray, g[os[0]], above)[path[0]].tree == Redacted(p, g, Ref(os[1]), above)
  {
    hide Redacted, RedactedKids, Closed;
    KidAt(p, g, os[0].isArray, g[os[0]], above, path[0]);
  }

  // --------------------------------------------------------------------------- the two traversals

  ghost function Snapshot(world: set<Obj>): Graph
    reads world
  {
    map o | o in world :: o.slots
  }

  method RedactCopy(p: Policy, v: Value, seen: Seen, ghost world: set<Obj>) returns (t: Tree)
    requires Closed(Snapshot(world)) && (v.Ref? ==> v.o in world)
    modifies seen
    ensures t == Redacted(p, Snapshot(world), v, old(seen.items))
    ensures seen.items == old(seen.items)
    decreases world - seen.items
  {
    match v {
      case Str(s) => return Text(p.scrub(s));
      case Prim(id) => return Plain(id);
      case Ref(o) =>
        if o in seen.items { return Cycle; }
        ghost var before, g := seen.items, Snapshot(world);
        var entries := o.slots;
        assert g[o] == entries;
        seen.items := seen.items + {o};
        var kids := [];
        for i := 0 to |entries|
          invariant seen.items == before + {o} && Snapshot(world) == g
          invariant kids == RedactedKids(p, g, o.isArray, entries[..i], before + {o})
        {
          var slot := entries[i];
          assert entries[..i + 1][..i] == entries[..i];
          if IsSecret(p, o.isArray, slot) {
            kids := kids + [Kid(slot.key, Text(REDACTED))];
          } else {
            assert g[o][i] == slot;
            var kid := RedactCopy(p, slot.value, seen, world);
            kids := kids + [Kid(slot.key, kid)];
          }
        }
        assert entries[..|entries|] == entries;
        seen.items := seen.items - {o};
        assert seen.items == before;
        return Node(o.isArray, kids);
    }
  }

  /** What an overwritten entry holds, said without the traversals. */
  ghost predicate EntryOverwritten(p: Policy, isArray: bool, slot: Slot, slot': Slot) {
    && slot'.key == slot.key
    && if !isArray && p.isSecretKey(slot.key) then slot'.value == Str("[REDACTED]")
       else if slot.value.Str? then slot'.value == Str(p.scrub(slot.value.s))
       else slot'.value == slot.value
  }

  /** The overwritten objects entry by entry, and every other object as it was. */
  ghost predicate OverwrittenIn(p: Policy, g: Graph, g': Graph, done: set<Obj>) {
    && g'.Keys == g.Keys
    && (forall o :: o in g && o !in done ==> g'[o] == g[o])
    && forall o :: o in g && o in done ==>
         && |g'[o]| == |g[o]|
         && forall k :: 0 <= k < |g[o]| ==> EntryOverwritten(p, o.isArray, g[o][k], g'[o][k])
  }

  lemma OverwrittenMeans(p: Policy, g: Graph, g': Graph, done: set<Obj>)
    requires Overwritten(p, g, g', done)
    ensures OverwrittenIn(p, g, g', done)
  {}

  /** What an object leads to over followed entries has been reached along with it. */
  lemma {:induction false} WalkStaysIn(p: Policy, g: Graph, done: set<Obj>, os: seq<Obj>, path: seq<nat>, i: nat)
    requires Complete(p, g, done) && Walks(p, g, os, path) && os[0] in done && i < |os|
    ensures os[i] in done
  {
    hide Followed;
    if i > 0 {
      WalkStaysIn(p, g, done, os, path, i - 1);
      assert Followed(p, os[i - 1].isArray, g[os[i - 1]][path[i - 1]]);
    }
  }

  /** What one in-place traversal leaves: the objects it newly saw are redacted, the others are as before. */
  ghost predicate Extends(p: Policy, g: Graph, g': Graph, before: set<Obj>, after: set<Obj>) {
    && before <= after <= g.Keys
    && Overwritten(p, g, g', after - before)
    && forall o, k :: o in after - before && 0 <= k < |g[o]| && Followed(p, o.isArray, g[o][k]) ==>
         g[o][k].value.o in after
  }

  /** In the middle of one object's entries: its first `i` are done, other new objects completely. */
  ghost predicate InProgress(
    p: Policy, g: Graph, now: Graph, before: set<Obj>, seen: set<Obj>, o: Obj, i: nat)
  {
    && o in g && o !in before && before + {o} <= seen <= g.Keys && now.Keys == g.Keys
    && i <= |g[o]|
    && now[o] == RedactSlots(p, o.isArray, g[o][..i]) + g[o][i..]
    && (forall x :: x in g && x != o ==>
         now[x] == if x in seen - before then RedactSlots(p, x.isArray, g[x]) else g[x])
    && (forall x, k :: x in seen - before && x != o && 0 <= k < |g[x]| && Followed(p, x.isArray, g[x][k]) ==>
         g[x][k].value.o in seen)
    && forall k :: 0 <= k < i && Followed(p, o.isArray, g[o][k]) ==> g[o][k].value.o in seen
  }

  lemma StartEntries(p: Policy, g: Graph, before: set<Obj>, o: Obj)
    requires o in g && o !in before && before <= g.Keys
    ensures InProgress(p, g, g, before, before + {o}, o, 0)
  {
    assert RedactSlots(p, o.isArray, g[o][..0]) + g[o][0..] == g[o];
  }

  lemma StoreEntry(p: Policy, g: Graph, now: Graph, before: set<Obj>, seen: set<Obj>, o: Obj, i: nat)
    requires InProgress(p, g, now, before, seen, o, i) && i < |g[o]| && !Followed(p, o.isArray, g[o][i])
    ensures |now[o]| == |g[o]| && now[o][i] == g[o][i]
    ensures InProgress(p, g, now[o := now[o][i := RedactSlot(p, o.isArray, g[o][i])]], before, seen, o, i + 1)
  {
    NextEntry(p, o.isArray, g[o], i);
  }

  lemma NextEntry(p: Policy, isArray: bool, slots: seq<Slot>, i: nat)
    requires i < |slots|
    ensures (RedactSlots(p, isArray, slots[..i]) + slots[i..])[i := RedactSlot(p, isArray, slots[i])]
         == RedactSlots(p, isArray, slots[..i + 1]) + slots[i + 1..]
  {}

  lemma VisitEntry(
    p: Policy, g: Graph, now: Graph, now': Graph, before: set<Obj>, seen: set<Obj>, seen': set<Obj>, o: Obj, i: nat)
    requires InProgress(p, g, now, before, seen, o, i) && i < |g[o]|
    requires !IsSecret(p, o.isArray, g[o][i]) && !g[o][i].value.Str?
    requires Extends(p, now, now', seen, seen') && (g[o][i].value.Ref? ==> g[o][i].value.o in seen')
    ensures InProgress(p, g, now', before, seen', o, i + 1)
  {
    NextEntry(p, o.isArray, g[o], i);
    var r := RedactSlots(p, o.isArray, g[o][..i]) + g[o][i..];
    assert r[i := r[i]] == r;
  }

  lemma FinishEntries(p: Policy, g: Graph, now: Graph, before: set<Obj>, seen: set<Obj>, o: Obj)
    requires o in g && InProgress(p, g, now, before, seen, o, |g[o]|)
    ensures Extends(p, g, now, before, seen)
  {
    assert g[o][..|g[o]|] == g[o];
    assert now[o] == RedactSlots(p, o.isArray, g[o]);
  }

  lemma ProgressClosed(p: Policy, g: Graph, now: Graph, before: set<Obj>, seen: set<Obj>, o: Obj, i: nat)
    requires Closed(g) && InProgress(p, g, now, before, seen, o, i)
    ensures Closed(now)
  {
    forall x, k | x in now && 0 <= k < |now[x]| && now[x][k].value.Ref? ensures now[x][k].value.o in now {
      assert now[x][k] == g[x][k];
    }
  }

  method OverwriteSlot(p: Policy, o: Obj, i: nat)
    requires i < |o.slots| && !Followed(p, o.isArray, o.slots[i])
    requires IsSecret(p, o.isArray, o.slots[i]) || o.slots[i].value.Str?
    modifies o
    ensures o.slots == old(o.slots)[i := RedactSlot(p, o.isArray, old(o.slots)[i])]
  {
    var slot := o.slots[i];
    if IsSecret(p, o.isArray, slot) {
      o.slots := o.slots[i := slot.(value := Str(REDACTED))];
    } else {
      o.slots := o.slots[i := slot.(value := Str(p.scrub(slot.value.s)))];
    }
  }

  lemma ProgressComplete(
    p: Policy, g: Graph, now: Graph, before: set<Obj>, seen: set<Obj>, o: Obj, i: nat, reach: set<Obj>)
    requires Complete(p, g, reach) && InProgress(p, g, now, before, seen, o, i)
    ensures Complete(p, now, reach)
  {
    forall x, k | x in reach && x in now && 0 <= k < |now[x]| && Followed(p, x.isArray, now[x][k])
      ensures now[x][k].value.o in reach
    {
      assert Followed(p, x.isArray, g[x][k]) && now[x][k] == g[x][k];
    }
  }

  /**
   * Overwrites every object reachable through followed entries, each once; a seen object is left alone.
   * `reach` is any set that holds the start and all that its objects lead to: nothing else is seen.
   */
  method RedactInPlace(p: Policy, v: Value, seen: Seen, ghost world: set<Obj>, ghost reach: set<Obj>)
    requires Closed(Snapshot(world)) && (v.Ref? ==> v.o in world) && seen.items <= world
    requires Complete(p, Snapshot(world), reach) && (v.Ref? ==> v.o in reach)
    modifies seen, world
    ensures OverwrittenIn(p, old(Snapshot(world)), Snapshot(world), seen.items - old(seen.items))
    ensures seen.items <= old(seen.items) + reach
    ensures Extends(p, old(Snapshot(world)), Snapshot(world), old(seen.items), seen.items)
    ensures Closed(Snapshot(world)) && (v.Ref? ==> v.o in seen.items)
    decreases world - seen.items, 0
  {
    hide InProgress, Extends, Closed, Complete, RedactSlot, IsSecret, OverwrittenIn;
    if !v.Ref? || v.o in seen.items {
      NothingOverwritten(p, Snapshot(world), seen.items);
      assert Snapshot(world).Keys == world;
      return;
    }
    var o := v.o;
    ghost var before, g := seen.items, Snapshot(world);
    var entries := o.slots;
    StartEntries(p, g, before, o);
    seen.items := seen.items + {o};
    assert Snapshot(world) == g && g[o] == entries;
    for i := 0 to |entries|
      invariant before < seen.items <= world && o in seen.items && seen.items <= before + reach
      invariant InProgress(p, g, Snapshot(world), before, seen.items, o, i)
    {
      RedactEntry(p, o, i, entries[i], seen, world, g, before, reach);
    }
    ProgressClosed(p, g, Snapshot(world), before, seen.items, o, |entries|);
    FinishEntries(p, g, Snapshot(world), before, seen.items, o);
    ExtendsMeans(p, g, Snapshot(world), before, seen.items);
  }

  lemma NothingOverwritten(p: Policy, g: Graph, seen: set<Obj>)
    requires seen <= g.Keys
    ensures Extends(p, g, g, seen, seen) && OverwrittenIn(p, g, g, seen - seen)
  {}

  lemma ExtendsMeans(p: Policy, g: Graph, g': Graph, before: set<Obj>, after: set<Obj>)
    requires Extends(p, g, g', before, after)
    ensures OverwrittenIn(p, g, g', after - before)
  {
    hide Overwritten, OverwrittenIn, Followed;
    OverwrittenMeans(p, g, g', after - before);
  }

  /** The loop body: one entry of an object whose earlier entries are done. */
  method RedactEntry(
    p: Policy, o: Obj, i: nat, slot: Slot, seen: Seen, ghost world: set<Obj>, ghost g: Graph,
    ghost before: set<Obj>, ghost reach: set<Obj>)
    requires Closed(g) && g.Keys == world && o in world && before < seen.items <= world
    requires i < |g[o]| && slot == g[o][i] && InProgress(p, g, Snapshot(world), before, seen.items, o, i)
    requires Complete(p, g, reach) && o in reach && seen.items <= before + reach
    modifies seen, world
    ensures before < seen.items <= world && seen.items <= before + reach && old(seen.items) <= seen.items
    ensures InProgress(p, g, Snapshot(world), before, seen.items, o, i + 1)
    decreases world - seen.items, 1
  {
    hide InProgress, Extends, Closed, Complete, RedactSlot, IsSecret, OverwrittenIn;
    ghost var now, already := Snapshot(world), seen.items;
    if IsSecret(p, o.isArray, slot) || slot.value.Str? {
      StoreEntry(p, g, now, before, already, o, i);
      OverwriteSlot(p, o, i);
      assert Snapshot(world) == now[o := now[o][i := RedactSlot(p, o.isArray, slot)]];
    } else {
      ProgressClosed(p, g, now, before, already, o, i);
      ProgressComplete(p, g, now, before, already, o, i, reach);
      InWorld(g, o, i);
      InReach(p, g, o, i, reach);
      RedactInPlace(p, slot.value, seen, world, reach);
      ExtendsBounds(p, now, Snapshot(world), already, seen.items);
      VisitEntry(p, g, now, Snapshot(world), before, already, seen.items, o, i);
    }
  }

  lemma InWorld(g: Graph, o: Obj, k: nat)
    requires Closed(g) && o in g && k < |g[o]|
    ensures g[o][k].value.Ref? ==> g[o][k].value.o in g
  {}

  lemma InReach(p: Policy, g: Graph, o: Obj, k: nat, reach: set<Obj>)
    requires Complete(p, g, reach) && o in g && o in reach && k < |g[o]|
    ensures g[o][k].value.Ref? && !IsSecret(p, o.isArray, g[o][k]) ==> g[o][k].value.o in reach
  {
    assert g[o][k].value.Ref? && !IsSecret(p, o.isArray, g[o][k]) ==> Followed(p, o.isArray, g[o][k]);
  }

  lemma ExtendsBounds(p: Policy, g: Graph, g': Graph, before: set<Obj>, after: set<Obj>)
    requires Extends(p, g, g', before, after)
    ensures before <= after <= g.Keys
  {}

  /**
   * Started with nothing seen, the overwritten graph reads back as what copying it would have returned,
   * and only what the root leads to is overwritten.
   */
  method RedactBothWays(p: Policy, root: Obj, ghost world: set<Obj>, ghost reach: set<Obj>) returns (copy: Tree)
    requires Closed(Snapshot(world)) && root in world
    requires Complete(p, Snapshot(world), reach) && root in reach
    modifies world
    ensures Closed(Snapshot(world))
    ensures copy == Redacted(p, old(Snapshot(world)), Ref(root), {})
    ensures copy == Redacted(AS_IS, Snapshot(world), Ref(root), {})
    ensures exists done :: root in done && done <= reach && Complete(p, old(Snapshot(world)), done)
                           && OverwrittenIn(p, old(Snapshot(world)), Snapshot(world), done)
  {
    hide OverwrittenIn;
    ghost var g := Snapshot(world);
    var seen := new Seen();
    copy := RedactCopy(p, Ref(root), seen, world);
    assert Snapshot(world) == g;
    RedactInPlace(p, Ref(root), seen, world, reach);
    OverwritingAgrees(p, g, Snapshot(world), seen.items, Ref(root), {});
    assert seen.items - {} == seen.items;
  }
}
