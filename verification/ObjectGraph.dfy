/** Stored objects, the references between them, and what is reachable. */
module ObjectGraph {
  import opened Common
  import TreeFormat

  /** Commits and tags are reduced to their references and the sequence number; `meta` is the rest.
      `Corrupt` stands for bytes that fail to read back or to parse. */
  datatype Object =
    | Blob(content: Bytes)
    | Tree(entries: seq<TreeFormat.Entry>)
    | Commit(tree: Hash, parents: seq<Hash>, sequence: nat, meta: string)
    | Tag(target: Hash, meta: string)
    | Corrupt(content: Bytes)

  type Store = map<Hash, Object>

  function EntryHashes(entries: seq<TreeFormat.Entry>): (hs: seq<Hash>)
    ensures |hs| == |entries| && forall i :: 0 <= i < |hs| ==> hs[i] == entries[i].hash
  {
    seq(|entries|, i requires 0 <= i < |entries| => entries[i].hash)
  }

  function ObjectRefs(o: Object): seq<Hash> {
    match o
    case Blob(_) => []
    case Tree(entries) => EntryHashes(entries)
    case Commit(tree, parents, _, _) => [tree] + parents
    case Tag(target, _) => [target]
    case Corrupt(_) => []
  }

  /** The hashes the object under h refers to; none if it is missing. */
  function Refs(store: Store, h: Hash): seq<Hash> {
    if h in store then ObjectRefs(store[h]) else []
  }

  /** A commit names its tree and its parents, a tree its entries, a tag its target; nothing else names
      anything. */
  ghost predicate Names(o: Object, h: Hash) {
    (o.Commit? && (h == o.tree || exists i :: 0 <= i < |o.parents| && o.parents[i] == h)) ||
    (o.Tree? && exists i :: 0 <= i < |o.entries| && o.entries[i].hash == h) ||
    (o.Tag? && h == o.target)
  }

  lemma RefsAreNames(store: Store, h: Hash, g: Hash)
    ensures g in Refs(store, h) <==> h in store && Names(store[h], g)
  {
    if h in store && store[h].Tree? {
      var entries := store[h].entries;
      assert g in EntryHashes(entries) <==> exists i :: 0 <= i < |entries| && EntryHashes(entries)[i] == g;
    }
  }

  ghost predicate IsPath(store: Store, p: seq<Hash>) {
    p != [] && forall i :: 0 <= i < |p| - 1 ==> p[i + 1] in Refs(store, p[i])
  }

  ghost predicate Path(store: Store, from: Hash, to: Hash, p: seq<Hash>) {
    IsPath(store, p) && p[0] == from && p[|p| - 1] == to
  }

  /** A chain of references leads from one hash to the other. */
  ghost predicate Reaches(store: Store, from: Hash, to: Hash) {
    exists p :: Path(store, from, to, p)
  }

  ghost predicate Closed(store: Store, s: set<Hash>) {
    forall h, g :: h in s && g in Refs(store, h) ==> g in s
  }

  lemma ReachesSelf(store: Store, h: Hash)
    ensures Reaches(store, h, h)
  {
    assert Path(store, h, h, [h]);
  }

  lemma ReachesStep(store: Store, h: Hash, c: Hash, g: Hash)
    requires c in Refs(store, h) && Reaches(store, c, g)
    ensures Reaches(store, h, g)
  {
    var p :| Path(store, c, g, p);
    assert Path(store, h, g, [h] + p);
  }

  lemma ReachesThen(store: Store, h: Hash, g: Hash, c: Hash)
    requires Reaches(store, h, g) && c in Refs(store, g)
    ensures Reaches(store, h, c)
  {
    var p :| Path(store, h, g, p);
    assert Path(store, h, c, p + [c]);
  }

  lemma {:induction false} ClosedHolds(store: Store, s: set<Hash>, p: seq<Hash>)
    requires Closed(store, s) && IsPath(store, p) && p[0] in s
    ensures p[|p| - 1] in s
    decreases |p|
  {
    if |p| > 1 {
      assert p[1] in Refs(store, p[0]);
      forall i | 0 <= i < |p[1..]| - 1
        ensures p[1..][i + 1] in Refs(store, p[1..][i])
      {
        assert p[i + 1 + 1] in Refs(store, p[i + 1]);
      }
      ClosedHolds(store, s, p[1..]);
    }
  }

  lemma ClosedReaches(store: Store, s: set<Hash>, h: Hash, g: Hash)
    requires Closed(store, s) && h in s && Reaches(store, h, g)
    ensures g in s
  {
    var p :| Path(store, h, g, p);
    ClosedHolds(store, s, p);
  }

  /** Every hash that is a root or that some stored object mentions. */
  ghost function Mentioned(store: Store, roots: set<Hash>): set<Hash> {
    roots + set h, g | h in store.Keys && g in Refs(store, h) :: g
  }

  /** Everything reachable from some root: the transitive closure of the reference relation. */
  ghost function ReachSet(store: Store, roots: set<Hash>): set<Hash> {
    set g | g in Mentioned(store, roots) && exists r :: r in roots && Reaches(store, r, g)
  }

  lemma ReachSetIsReach(store: Store, roots: set<Hash>, g: Hash)
    ensures g in ReachSet(store, roots) <==> exists r :: r in roots && Reaches(store, r, g)
  {
    if r :| r in roots && Reaches(store, r, g) {
      assert Closed(store, Mentioned(store, roots));
      ClosedReaches(store, Mentioned(store, roots), r, g);
    }
  }

  /** A set that is closed, holds the roots and holds nothing unreachable is the reach set. */
  lemma ReachSetUnique(store: Store, roots: set<Hash>, s: set<Hash>)
    requires roots <= s && Closed(store, s)
    requires forall g :: g in s ==> exists r :: r in roots && Reaches(store, r, g)
    ensures s == ReachSet(store, roots)
  {
    forall g
      ensures g in s <==> g in ReachSet(store, roots)
    {
      ReachSetIsReach(store, roots, g);
      if r :| r in roots && Reaches(store, r, g) {
        ClosedReaches(store, s, r, g);
      }
    }
  }

  lemma ReachSetClosed(store: Store, roots: set<Hash>)
    ensures roots <= ReachSet(store, roots) && Closed(store, ReachSet(store, roots))
  {
    forall r | r in roots
      ensures r in ReachSet(store, roots)
    {
      ReachesSelf(store, r);
    }
    forall h, g | h in ReachSet(store, roots) && g in Refs(store, h)
      ensures g in ReachSet(store, roots)
    {
      var r :| r in roots && Reaches(store, r, h);
      ReachesThen(store, r, h, g);
      ReachSetIsReach(store, roots, g);
    }
  }

  /** Reachability only depends on the reachable objects. */
  lemma ReachSetAgrees(store: Store, store': Store, roots: set<Hash>)
    requires forall h :: h in ReachSet(store, roots) ==> Refs(store', h) == Refs(store, h)
    ensures ReachSet(store', roots) == ReachSet(store, roots)
  {
    hide Reaches, Refs, ReachSet;
    var s := ReachSet(store, roots);
    ReachSetClosed(store, roots);
    forall g | g in s
      ensures exists r :: r in roots && Reaches(store', r, g)
    {
      ReachSetIsReach(store, roots, g);
      var r :| r in roots && Reaches(store, r, g);
      ReachesAgrees(store, store', s, r, g);
    }
    ReachSetUnique(store', roots, s);
  }

  lemma ReachesAgrees(store: Store, store': Store, s: set<Hash>, r: Hash, g: Hash)
    requires Closed(store, s) && r in s && Reaches(store, r, g)
    requires forall h :: h in s ==> Refs(store', h) == Refs(store, h)
    ensures Reaches(store', r, g)
  {
    var p :| Path(store, r, g, p);
    PathAgrees(store, store', s, p);
    assert Path(store', r, g, p);
  }

  lemma PathAgrees(store: Store, store': Store, s: set<Hash>, p: seq<Hash>)
    requires Closed(store, s) && IsPath(store, p) && p[0] in s
    requires forall h :: h in s ==> Refs(store', h) == Refs(store, h)
    ensures IsPath(store', p)
  {
    forall i | 0 <= i < |p| - 1
      ensures p[i + 1] in Refs(store', p[i])
    {
      ClosedHolds(store, s, p[..i + 1]);
      assert p[..i + 1][i] == p[i];
    }
  }
}
