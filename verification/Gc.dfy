/** Collection of unreachable objects. */
module Gc {
  import opened Common
  import opened ObjectGraph
  import opened Marking

  datatype Report = Report(total: nat, reachable: nat, unreachable: nat, pruned: bool)

  ghost function Readable(refs: seq<Option<Hash>>): set<Hash> {
    set r | r in refs && r.Some? :: r.value
  }

  /** The part of the store that collection keeps. */
  ghost function Kept(store: Store, roots: set<Hash>): Store {
    map h | h in store && h in ReachSet(store, roots) :: store[h]
  }

  /** Some readable ref of the list names a hash from which the object is reached. */
  ghost predicate HeldBy(store: Store, refs: seq<Option<Hash>>, g: Hash) {
    exists i :: 0 <= i < |refs| && refs[i].Some? && Reaches(store, refs[i].value, g)
  }

  /** Reached from a HEAD that is not zero, from a tag or from a remote tracking ref. */
  ghost predicate Held(store: Store, head: Option<Hash>, tags: seq<Option<Hash>>, remoteRefs: seq<Option<Hash>>,
                       g: Hash) {
    (head.Some? && head.value != ZERO && Reaches(store, head.value, g)) ||
    HeldBy(store, tags, g) || HeldBy(store, remoteRefs, g)
  }

  /** A repository as the collector sees it: None stands for a ref that cannot be read. */
  class Repository {
    var store: Store
    var head: Option<Hash>
    var tags: seq<Option<Hash>>
    var remoteRefs: seq<Option<Hash>>

    constructor (store: Store, head: Option<Hash>, tags: seq<Option<Hash>>, remoteRefs: seq<Option<Hash>>)
      ensures this.store == store && this.head == head && this.tags == tags && this.remoteRefs == remoteRefs
    {
      this.store, this.head, this.tags, this.remoteRefs := store, head, tags, remoteRefs;
    }

    /** HEAD unless it is missing or zero, every tag and every remote tracking ref. */
    ghost function Roots(): set<Hash>
      reads this
    {
      (if head.Some? && head.value != ZERO then {head.value} else {}) + Readable(tags) + Readable(remoteRefs)
    }

    method MarkRoots() returns (reachable: set<Hash>)
      ensures reachable == ReachSet(store, Roots())
    {
      var marker := new Marker();
      ReachSetEmpty(store);
      ghost var roots: set<Hash> := {};
      if head.Some? && head.value != ZERO {
        marker.MarkReachable(store, head.value);
        MarkedMore(store, {}, roots, marker.reachable, head.value);
        roots := {} + {head.value};
      }
      MarkRefs(marker, tags, roots);
      MarkRefs(marker, remoteRefs, roots + Readable(tags));
      reachable := marker.reachable;
    }

    /** The loops over tags and over remote tracking refs; unreadable ones are skipped. */
    method MarkRefs(marker: Marker, refs: seq<Option<Hash>>, ghost roots: set<Hash>)
      requires marker.reachable == ReachSet(store, roots)
      modifies marker
      ensures marker.reachable == ReachSet(store, roots + Readable(refs))
    {
      hide Reaches, ReachSet;
      var s := store;
      assert roots + Readable(refs[..0]) == roots;
      for i := 0 to |refs|
        invariant marker.reachable == ReachSet(s, roots + Readable(refs[..i]))
      {
        ReadableStep(refs, i);
        ghost var before, done := marker.reachable, roots + Readable(refs[..i]);
        if refs[i].Some? {
          marker.MarkReachable(s, refs[i].value);
          MarkedMore(s, before, done, marker.reachable, refs[i].value);
          assert roots + Readable(refs[..i + 1]) == done + {refs[i].value};
        } else {
          assert roots + Readable(refs[..i + 1]) == done;
        }
      }
      assert refs[..|refs|] == refs;
    }

    /** An object is reachable from the roots exactly if HEAD, a tag or a remote ref holds it. */
    lemma RootsHold(g: Hash)
      ensures g in ReachSet(store, Roots()) <==> Held(store, head, tags, remoteRefs, g)
    {
      hide Reaches, ReachSet;
      ReachSetIsReach(store, Roots(), g);
      if r :| r in Roots() && Reaches(store, r, g) {
        if r in Readable(tags) {
          RefHolds(store, tags, r, g);
        } else if r in Readable(remoteRefs) {
          RefHolds(store, remoteRefs, r, g);
        }
      }
      if i :| 0 <= i < |tags| && tags[i].Some? && Reaches(store, tags[i].value, g) {
        assert tags[i] in tags && tags[i].value in Readable(tags);
      }
      if i :| 0 <= i < |remoteRefs| && remoteRefs[i].Some? && Reaches(store, remoteRefs[i].value, g) {
        assert remoteRefs[i] in remoteRefs && remoteRefs[i].value in Readable(remoteRefs);
      }
    }

    /** Mark, then sweep every stored object in any order. */
    method Collect(prune: bool) returns (report: Report)
      modifies this`store
      ensures store == if prune then Kept(old(store), Roots()) else old(store)
      ensures prune ==> forall g :: g in store <==> g in old(store) && Held(old(store), head, tags, remoteRefs, g)
      ensures forall g :: g in store ==> store[g] == old(store)[g]
      ensures report.total == |old(store)|
      ensures report.reachable == |ReachSet(old(store), Roots())|
      ensures report.unreachable == |old(store).Keys - ReachSet(old(store), Roots())|
      ensures report.pruned <==> prune && report.unreachable > 0
    {
      hide Reaches, ReachSet, Held;
      forall g: Hash
        ensures g in ReachSet(store, Roots()) <==> Held(store, head, tags, remoteRefs, g)
      {
        RootsHold(g);
      }
      var reachable := MarkRoots();
      var total, unreachable, pruned := Sweep(reachable, prune);
      report := Report(total, |reachable|, unreachable, pruned);
    }

    method Sweep(reachable: set<Hash>, prune: bool) returns (total: nat, unreachable: nat, pruned: bool)
      modifies this`store
      ensures store == if prune then Swept(old(store), old(store).Keys, reachable) else old(store)
      ensures total == |old(store)| && unreachable == |old(store).Keys - reachable|
      ensures pruned <==> prune && unreachable > 0
    {
      hide SoFar;
      var todo := store.Keys;
      ghost var before := store;
      total, unreachable, pruned := 0, 0, false;
      NothingSwept(before, todo, reachable, prune);
      while todo != {}
        invariant SoFar(before, todo, reachable, prune, store, total, unreachable, pruned)
        decreases |todo|
      {
        var h :| h in todo;
        SweepNext(before, todo, reachable, prune, store, total, unreachable, pruned, h);
        todo := todo - {h};
        total := total + 1;
        if h !in reachable {
          unreachable := unreachable + 1;
          if prune {
            store := store - {h};
            pruned := true;
          }
        }
      }
      AllSwept(before, reachable, prune, store, total, unreachable, pruned);
    }
  }

  lemma RefHolds(store: Store, refs: seq<Option<Hash>>, r: Hash, g: Hash)
    requires r in Readable(refs) && Reaches(store, r, g)
    ensures HeldBy(store, refs, g)
  {
    hide Reaches;
    var ref :| ref in refs && ref.Some? && ref.value == r;
    var i :| 0 <= i < |refs| && refs[i] == ref;
  }

  /** Counters and store once all objects but those in todo were visited. */
  ghost predicate SoFar(before: Store, todo: set<Hash>, reachable: set<Hash>, prune: bool,
                        store: Store, total: nat, unreachable: nat, pruned: bool) {
    var seen := before.Keys - todo;
    todo <= before.Keys && total == |seen| && unreachable == |seen - reachable| &&
    store == (if prune then Swept(before, seen, reachable) else before) && (pruned <==> prune && unreachable > 0)
  }

  lemma NothingSwept(before: Store, todo: set<Hash>, reachable: set<Hash>, prune: bool)
    requires todo == before.Keys
    ensures SoFar(before, todo, reachable, prune, before, 0, 0, false)
  {
    assert before.Keys - todo == {};
  }

  lemma AllSwept(before: Store, reachable: set<Hash>, prune: bool,
                                    store: Store, total: nat, unreachable: nat, pruned: bool)
    requires SoFar(before, {}, reachable, prune, store, total, unreachable, pruned)
    ensures store == if prune then Swept(before, before.Keys, reachable) else before
    ensures total == |before| && unreachable == |before.Keys - reachable| && (pruned <==> prune && unreachable > 0)
  {
    hide Swept;
    assert before.Keys - {} == before.Keys;
  }

  lemma SweepNext(before: Store, todo: set<Hash>, reachable: set<Hash>, prune: bool,
                                     store: Store, total: nat, unreachable: nat, pruned: bool, h: Hash)
    requires SoFar(before, todo, reachable, prune, store, total, unreachable, pruned) && h in todo
    ensures var garbage := h !in reachable;
            SoFar(before, todo - {h}, reachable, prune, if garbage && prune then store - {h} else store, total + 1,
                  if garbage then unreachable + 1 else unreachable, pruned || (garbage && prune))
  {
    hide Swept;
    var seen := before.Keys - todo;
    assert before.Keys - (todo - {h}) == seen + {h};
    SweptStep(before, seen, reachable, h);
  }

  lemma SweptStep(store: Store, seen: set<Hash>, reachable: set<Hash>, h: Hash)
    requires h in store && h !in seen
    ensures Swept(store, seen + {h}, reachable) ==
            if h in reachable then Swept(store, seen, reachable) else Swept(store, seen, reachable) - {h}
    ensures |(seen + {h}) - reachable| == |seen - reachable| + if h in reachable then 0 else 1
  {
    assert (seen + {h}) - reachable == if h in reachable then seen - reachable else (seen - reachable) + {h};
  }

  ghost function Swept(store: Store, seen: set<Hash>, reachable: set<Hash>): Store {
    map h | h in store && (h !in seen || h in reachable) :: store[h]
  }

  lemma ReadableStep(refs: seq<Option<Hash>>, i: nat)
    requires i < |refs|
    ensures Readable(refs[..i + 1]) == Readable(refs[..i]) + if refs[i].Some? then {refs[i].value} else {}
  {
    assert refs[..i + 1] == refs[..i] + [refs[i]];
  }

  lemma ReachSetEmpty(store: Store)
    ensures ReachSet(store, {}) == {}
  {
  }

  lemma MarkedMore(store: Store, before: set<Hash>, roots: set<Hash>, after: set<Hash>, h: Hash)
    requires before == ReachSet(store, roots) && MarksFrom(store, before, after, h)
    ensures after == ReachSet(store, roots + {h})
  {
    hide Reaches, ReachSet;
    ReachSetClosed(store, roots);
    MarksClosed(store, before, after, h);
    forall g | g in after
      ensures exists r :: r in roots + {h} && Reaches(store, r, g)
    {
      if g in before {
        ReachSetIsReach(store, roots, g);
        var r :| r in roots && Reaches(store, r, g);
        assert r in roots + {h};
      } else {
        assert h in roots + {h};
      }
    }
    ReachSetUnique(store, roots + {h}, after);
  }

  /** Collection changes neither what is reachable nor any reachable object, and a second run
      finds nothing to remove. */
  lemma KeptIsStable(store: Store, roots: set<Hash>)
    ensures ReachSet(Kept(store, roots), roots) == ReachSet(store, roots)
    ensures Kept(Kept(store, roots), roots) == Kept(store, roots)
    ensures Kept(store, roots).Keys - ReachSet(Kept(store, roots), roots) == {}
    ensures forall h :: h in ReachSet(store, roots) ==>
                          Refs(Kept(store, roots), h) == Refs(store, h) &&
                          (h in store <==> h in Kept(store, roots)) &&
                          (h in store ==> Kept(store, roots)[h] == store[h])
  {
    hide Reaches;
    ReachSetAgrees(store, Kept(store, roots), roots);
  }

  /** The report's two counts add up to the total exactly when no reachable object is missing. */
  lemma CountsAddUp(store: Store, roots: set<Hash>)
    ensures |ReachSet(store, roots)| + |store.Keys - ReachSet(store, roots)| == |store| <==>
            ReachSet(store, roots) <= store.Keys
  {
    var r := ReachSet(store, roots);
    assert store.Keys == (store.Keys - r) + store.Keys * r;
    assert r == (r - store.Keys) + store.Keys * r;
    if |r - store.Keys| == 0 {
      assert r - store.Keys == {};
    }
  }

  /** The staging index is no root: an object just stored under a new hash, with no references of its
      own, is pruned unless something that is kept or is a root already names it. */
  lemma StagedIsPruned(store: Store, roots: set<Hash>, h: Hash, content: Bytes)
    requires h !in store
    ensures h in Kept(store[h := Blob(content)], roots) <==> h in ReachSet(store, roots)
    ensures ReachSet(store[h := Blob(content)], roots) == ReachSet(store, roots)
    ensures h !in ReachSet(store, roots) ==> Kept(store[h := Blob(content)], roots) == Kept(store, roots)
  {
    hide Reaches, ReachSet;
    ReachSetAgrees(store, store[h := Blob(content)], roots);
  }
}
