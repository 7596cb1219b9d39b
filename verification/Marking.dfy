/** The recursive traversals: marking for collection and packing, and collecting what is new. */
module Marking {
  import opened Common
  import opened ObjectGraph

  /** New marks come from h, and all but perhaps h carry their references with them. */
  ghost predicate MarksBut(store: Store, before: set<Hash>, after: set<Hash>, h: Hash) {
    before <= after && h in after &&
    forall g :: g in after - before ==>
      Reaches(store, h, g) && (g == h || forall c :: c in Refs(store, g) ==> c in after)
  }

  ghost predicate MarksFrom(store: Store, before: set<Hash>, after: set<Hash>, h: Hash) {
    MarksBut(store, before, after, h) && (h in before || forall c :: c in Refs(store, h) ==> c in after)
  }

  lemma MarksStart(store: Store, before: set<Hash>, h: Hash)
    ensures MarksBut(store, before, before + {h}, h)
  {
    ReachesSelf(store, h);
  }

  lemma MarksChild(store: Store, before: set<Hash>, mid: set<Hash>, after: set<Hash>, h: Hash, c: Hash)
    requires MarksBut(store, before, mid, h) && h !in before && c in Refs(store, h) && MarksFrom(store, mid, after, c)
    ensures MarksBut(store, before, after, h) && c in after
  {
    forall g | g in after - before
      ensures Reaches(store, h, g) && (g == h || forall d :: d in Refs(store, g) ==> d in after)
    {
      if g !in mid {
        ReachesStep(store, h, c, g);
      }
    }
  }

  /** Marking from a closed set adds exactly what h reaches and stays closed. */
  lemma MarksClosed(store: Store, before: set<Hash>, after: set<Hash>, h: Hash)
    requires MarksFrom(store, before, after, h) && Closed(store, before)
    ensures Closed(store, after)
    ensures forall g :: g in after <==> g in before || Reaches(store, h, g)
  {
    forall x, c | x in after && c in Refs(store, x)
      ensures c in after
    {
      if x in before {
        assert c in before;
      }
    }
    forall g | Reaches(store, h, g)
      ensures g in after
    {
      ClosedReaches(store, after, h, g);
    }
  }

  /** The map of marked hashes that the recursion fills. */
  class Marker {
    var reachable: set<Hash>

    constructor ()
      ensures reachable == {}
    {
      reachable := {};
    }

    method MarkReachable(store: Store, h: Hash)
      modifies this
      ensures MarksFrom(store, old(reachable), reachable, h)
      decreases store.Keys - reachable
    {
      hide Reaches;
      if h in reachable {
        ReachesSelf(store, h);
        return;
      }
      ghost var before := reachable;
      MarksStart(store, before, h);
      reachable := reachable + {h};
      if h !in store {
        return;
      }
      match store[h]
      case Commit(tree, parents, _, _) =>
        MarkChild(store, before, h, tree);
        MarkEach(store, before, h, parents);
      case Tree(entries) =>
        MarkEach(store, before, h, EntryHashes(entries));
      case Tag(target, _) =>
        MarkChild(store, before, h, target);
      case Blob(_) =>
      case Corrupt(_) =>
    }

    /** The loops over parents and tree entries. */
    method MarkEach(store: Store, ghost before: set<Hash>, h: Hash, children: seq<Hash>)
      requires MarksBut(store, before, reachable, h) && h !in before && h in store
      requires forall i :: 0 <= i < |children| ==> children[i] in Refs(store, h)
      modifies this
      ensures MarksBut(store, before, reachable, h) && old(reachable) <= reachable
      ensures forall i :: 0 <= i < |children| ==> children[i] in reachable
      decreases store.Keys - before, 1
    {
      hide Reaches;
      for i := 0 to |children|
        invariant MarksBut(store, before, reachable, h) && old(reachable) <= reachable
        invariant forall j :: 0 <= j < i ==> children[j] in reachable
      {
        MarkChild(store, before, h, children[i]);
      }
    }

    /** The recursive call on one reference of h. */
    method MarkChild(store: Store, ghost before: set<Hash>, h: Hash, c: Hash)
      requires MarksBut(store, before, reachable, h) && h !in before && h in store && c in Refs(store, h)
      modifies this
      ensures MarksBut(store, before, reachable, h) && c in reachable && old(reachable) <= reachable
      decreases store.Keys - before, 0
    {
      ghost var mid := reachable;
      MarkReachable(store, c);
      MarksChild(store, before, mid, reachable, h, c);
    }
  }

  /** The listed hashes are the new marks that are not old ones, each once. */
  ghost predicate ListsNew(diff: seq<Hash>, oldReachable: set<Hash>, newReachable: set<Hash>) {
    Distinct(diff) && forall h :: h in diff <==> h in newReachable && h !in oldReachable
  }

  lemma ListsNewStep(diff: seq<Hash>, oldReachable: set<Hash>, newReachable: set<Hash>, h: Hash)
    requires ListsNew(diff, oldReachable, newReachable) && h !in newReachable
    ensures ListsNew(if h in oldReachable then diff else diff + [h], oldReachable, newReachable + {h})
  {
  }

  /** The same traversal, listing what was not reachable from the old commit. */
  class Collector {
    const oldReachable: set<Hash>
    var newReachable: set<Hash>
    var diff: seq<Hash>

    constructor (oldReachable: set<Hash>)
      ensures this.oldReachable == oldReachable && newReachable == {} && diff == []
    {
      this.oldReachable := oldReachable;
      newReachable, diff := {}, [];
    }

    method CollectNewObjects(store: Store, h: Hash)
      requires ListsNew(diff, oldReachable, newReachable)
      modifies this
      ensures MarksFrom(store, old(newReachable), newReachable, h)
      ensures ListsNew(diff, oldReachable, newReachable)
      decreases store.Keys - newReachable
    {
      hide Reaches;
      if h in newReachable {
        ReachesSelf(store, h);
        return;
      }
      ghost var before := newReachable;
      MarksStart(store, before, h);
      ListsNewStep(diff, oldReachable, newReachable, h);
      newReachable := newReachable + {h};
      if h !in oldReachable {
        diff := diff + [h];
      }
      if h !in store {
        return;
      }
      match store[h]
      case Commit(tree, parents, _, _) =>
        CollectChild(store, before, h, tree);
        CollectEach(store, before, h, parents);
      case Tree(entries) =>
        CollectEach(store, before, h, EntryHashes(entries));
      case Tag(target, _) =>
        CollectChild(store, before, h, target);
      case Blob(_) =>
      case Corrupt(_) =>
    }

    method CollectEach(store: Store, ghost before: set<Hash>, h: Hash, children: seq<Hash>)
      requires ListsNew(diff, oldReachable, newReachable)
      requires MarksBut(store, before, newReachable, h) && h !in before && h in store
      requires forall i :: 0 <= i < |children| ==> children[i] in Refs(store, h)
      modifies this
      ensures MarksBut(store, before, newReachable, h) && old(newReachable) <= newReachable
      ensures ListsNew(diff, oldReachable, newReachable)
      ensures forall i :: 0 <= i < |children| ==> children[i] in newReachable
      decreases store.Keys - before, 1
    {
      hide Reaches;
      for i := 0 to |children|
        invariant ListsNew(diff, oldReachable, newReachable)
        invariant MarksBut(store, before, newReachable, h) && old(newReachable) <= newReachable
        invariant forall j :: 0 <= j < i ==> children[j] in newReachable
      {
        CollectChild(store, before, h, children[i]);
      }
    }

    method CollectChild(store: Store, ghost before: set<Hash>, h: Hash, c: Hash)
      requires ListsNew(diff, oldReachable, newReachable)
      requires MarksBut(store, before, newReachable, h) && h !in before && h in store && c in Refs(store, h)
      modifies this
      ensures MarksBut(store, before, newReachable, h) && c in newReachable && old(newReachable) <= newReachable
      ensures ListsNew(diff, oldReachable, newReachable)
      decreases store.Keys - before, 0
    {
      hide Reaches;
      ghost var mid := newReachable;
      CollectNewObjects(store, c);
      MarksChild(store, before, mid, newReachable, h, c);
    }
  }

  lemma MarkedIsReachSet(store: Store, h: Hash, after: set<Hash>)
    requires MarksFrom(store, {}, after, h)
    ensures after == ReachSet(store, {h})
  {
    MarksClosed(store, {}, after, h);
    forall g | g in after
      ensures exists r :: r in {h} && Reaches(store, r, g)
    {
      assert h in {h};
    }
    ReachSetUnique(store, {h}, after);
  }

  /** What a receiver that has the old commit counts as known. */
  ghost function Known(store: Store, oldHash: Hash): set<Hash> {
    if oldHash == ZERO then {} else ReachSet(store, {oldHash})
  }

  /** Exactly the objects reachable from the new commit and not from the old one, each once. */
  method ComputeObjectDiff(store: Store, oldHash: Hash, newHash: Hash) returns (diff: seq<Hash>)
    ensures Distinct(diff)
    ensures forall h :: h in diff <==> h in ReachSet(store, {newHash}) && h !in Known(store, oldHash)
  {
    var marker := new Marker();
    if oldHash != ZERO {
      marker.MarkReachable(store, oldHash);
      MarkedIsReachSet(store, oldHash, marker.reachable);
    }
    var collector := new Collector(marker.reachable);
    collector.CollectNewObjects(store, newHash);
    MarkedIsReachSet(store, newHash, collector.newReachable);
    diff := collector.diff;
  }
}
