/** The object graph that the stored bytes spell out, and what it means for directories. */
module StoredGraph {
  import opened Common
  import opened ObjectFormat
  import opened TreeFormat
  import opened DirTree
  import opened TreeStore
  import opened TreeCheckout
  import G = ObjectGraph
  import Gc

  /** How the collector reads stored bytes; the text of commits and tags is read by the given function. */
  function ObjectIn(data: Bytes, readText: Bytes -> G.Object): G.Object {
    match ParseHeader(data)
    case Err => G.Corrupt(data)
    case Ok(header) => match header.kind
      case BlobType => G.Blob(data[header.offset..])
      case TreeType =>
        (match Parsed(data[header.offset..])
         case Err => G.Corrupt(data)
         case Ok(es) => G.Tree(es))
      case CommitType => readText(data)
      case TagType => readText(data)
  }

  /** Bytes filed under a hash that is not theirs fail to read. */
  function GraphOf(objects: Objects, hashOf: Bytes -> Hash, readText: Bytes -> G.Object): G.Store {
    map h | h in objects :: if hashOf(objects[h]) == h then ObjectIn(objects[h], readText) else G.Corrupt(objects[h])
  }

  ghost function HashesOf(bs: set<Bytes>, hashOf: Bytes -> Hash): set<Hash> {
    set b | b in bs :: hashOf(b)
  }

  lemma DirInGraph(cs: seq<Child>, objects: Objects, hashOf: Bytes -> Hash, readText: Bytes -> G.Object)
    requires WellFormed(Dir(cs)) && Has(objects, hashOf, {ObjectOf(Dir(cs), hashOf)})
    ensures G.Refs(GraphOf(objects, hashOf, readText), hashOf(ObjectOf(Dir(cs), hashOf))) ==
            G.EntryHashes(EntriesOf(cs, hashOf))
  {
    hide Format, ParseHeader, EncodeEntries, Parsed, WellFormed;
    var content := EncodeEntries(EntriesOf(cs, hashOf));
    NamesPlain(cs);
    EntriesPlain(cs, hashOf);
    EntriesRoundTrip(EntriesOf(cs, hashOf));
    HeaderRoundTrip(TreeType, content);
    assert ObjectOf(Dir(cs), hashOf) in {ObjectOf(Dir(cs), hashOf)};
  }

  lemma NamesPlain(cs: seq<Child>)
    requires WellFormed(Dir(cs))
    ensures forall i :: 0 <= i < |cs| ==> NUL !in cs[i].name && WellFormed(cs[i].node)
  {
    var n := Dir(cs);
    assert n.children == cs;
  }

  lemma BlobInGraph(content: Bytes, objects: Objects, hashOf: Bytes -> Hash, readText: Bytes -> G.Object)
    requires Has(objects, hashOf, {Format(BlobType, content)})
    ensures G.Refs(GraphOf(objects, hashOf, readText), hashOf(Format(BlobType, content))) == []
  {
    hide Format, ParseHeader;
    HeaderRoundTrip(BlobType, content);
    assert Format(BlobType, content) in {Format(BlobType, content)};
  }

  lemma HasPart(objects: Objects, hashOf: Bytes -> Hash, bs: set<Bytes>, part: set<Bytes>)
    requires Has(objects, hashOf, bs) && part <= bs
    ensures Has(objects, hashOf, part)
  {
  }

  /** From a node's object exactly its objects are reachable. */
  lemma {:induction false} NodeReaches(n: Node, objects: Objects, hashOf: Bytes -> Hash, readText: Bytes -> G.Object)
    requires WellFormed(n) && Storable(n) && Has(objects, hashOf, ObjectsOf(n, hashOf))
    ensures var store := GraphOf(objects, hashOf, readText);
            (forall b :: b in ObjectsOf(n, hashOf) ==> G.Reaches(store, hashOf(ObjectOf(n, hashOf)), hashOf(b))) &&
            G.Closed(store, HashesOf(ObjectsOf(n, hashOf), hashOf))
    decreases n, 2, 0
  {
    hide ParseHeader, Format, G.Reaches, GraphOf, EncodeEntries, EntriesOf, WellFormed;
    var store := GraphOf(objects, hashOf, readText);
    var root := ObjectOf(n, hashOf);
    HasPart(objects, hashOf, ObjectsOf(n, hashOf), {root});
    G.ReachesSelf(store, hashOf(root));
    match n
    case File(content, _) => BlobInGraph(content, objects, hashOf, readText);
    case Symlink(target) => BlobInGraph(target, objects, hashOf, readText);
    case Dir(cs) => DirReaches(cs, objects, hashOf, readText);
    case Special =>
  }

  lemma {:induction false} DirReaches(cs: seq<Child>, objects: Objects, hashOf: Bytes -> Hash,
                                      readText: Bytes -> G.Object)
    requires WellFormed(Dir(cs)) && Storable(Dir(cs)) && Has(objects, hashOf, ObjectsOf(Dir(cs), hashOf))
    ensures var store := GraphOf(objects, hashOf, readText);
            (forall b :: b in ObjectsOf(Dir(cs), hashOf) ==>
               G.Reaches(store, hashOf(ObjectOf(Dir(cs), hashOf)), hashOf(b))) &&
            G.Closed(store, HashesOf(ObjectsOf(Dir(cs), hashOf), hashOf))
    decreases Dir(cs), 1, 0
  {
    hide ParseHeader, Format, G.Reaches, GraphOf, EncodeEntries, EntriesOf, WellFormed;
    var n := Dir(cs);
    var store := GraphOf(objects, hashOf, readText);
    var root, all := ObjectOf(n, hashOf), HashesOf(ObjectsOf(n, hashOf), hashOf);
    HasPart(objects, hashOf, ObjectsOf(n, hashOf), {root});
    DirInGraph(cs, objects, hashOf, readText);
    NamesPlain(cs);
    G.ReachesSelf(store, hashOf(root));
    forall i | 0 <= i < |cs|
      ensures forall b :: b in ObjectsOf(cs[i].node, hashOf) ==> G.Reaches(store, hashOf(root), hashOf(b))
      ensures G.Closed(store, HashesOf(ObjectsOf(cs[i].node, hashOf), hashOf))
      ensures HashesOf(ObjectsOf(cs[i].node, hashOf), hashOf) <= all
    {
      ChildReaches(cs, i, objects, hashOf, readText);
    }
    hide G.Refs;
    forall h, g | h in all && g in G.Refs(store, h)
      ensures g in all
    {
      if h == hashOf(root) {
        var i :| 0 <= i < |cs| && G.EntryHashes(EntriesOf(cs, hashOf))[i] == g;
        EntryAt(cs, hashOf, i);
        assert ObjectOf(cs[i].node, hashOf) in ObjectsOf(cs[i].node, hashOf);
      } else {
        var b :| b in ObjectsOf(n, hashOf) && hashOf(b) == h;
        var i :| 0 <= i < |n.children| && b in ObjectsOf(n.children[i].node, hashOf);
        assert h in HashesOf(ObjectsOf(cs[i].node, hashOf), hashOf);
      }
    }
  }

  lemma {:induction false} ChildReaches(cs: seq<Child>, i: nat, objects: Objects, hashOf: Bytes -> Hash,
                                        readText: Bytes -> G.Object)
    requires i < |cs| && WellFormed(Dir(cs)) && Storable(Dir(cs)) && Has(objects, hashOf, ObjectsOf(Dir(cs), hashOf))
    ensures var store := GraphOf(objects, hashOf, readText);
            var root, bs := ObjectOf(Dir(cs), hashOf), ObjectsOf(cs[i].node, hashOf);
            (forall b :: b in bs ==> G.Reaches(store, hashOf(root), hashOf(b))) &&
            G.Closed(store, HashesOf(bs, hashOf)) &&
            HashesOf(bs, hashOf) <= HashesOf(ObjectsOf(Dir(cs), hashOf), hashOf)
    decreases Dir(cs), 0, 0
  {
    hide ParseHeader, Format, G.Reaches, GraphOf, EncodeEntries, EntriesOf, WellFormed, ObjectOf, G.Closed;
    var n := Dir(cs);
    var store := GraphOf(objects, hashOf, readText);
    var root, child := ObjectOf(n, hashOf), n.children[i].node;
    assert root in ObjectsOf(n, hashOf);
    HasPart(objects, hashOf, ObjectsOf(n, hashOf), {root});
    DirInGraph(cs, objects, hashOf, readText);
    NamesPlain(cs);
    ChildObjects(cs, hashOf, i);
    hide ObjectsOf;
    HasPart(objects, hashOf, ObjectsOf(n, hashOf), ObjectsOf(child, hashOf));
    NodeReaches(child, objects, hashOf, readText);
    EntryAt(cs, hashOf, i);
    assert G.EntryHashes(EntriesOf(cs, hashOf))[i] == hashOf(ObjectOf(child, hashOf));
    forall b | b in ObjectsOf(child, hashOf)
      ensures G.Reaches(store, hashOf(root), hashOf(b))
    {
      G.ReachesStep(store, hashOf(root), hashOf(ObjectOf(child, hashOf)), hashOf(b));
    }
  }

  /** Starting from a stored directory's root hash, marking finds exactly the directory's objects. */
  lemma DirReachSet(cs: seq<Child>, objects: Objects, hashOf: Bytes -> Hash, readText: Bytes -> G.Object)
    requires WellFormed(Dir(cs)) && Storable(Dir(cs)) && Has(objects, hashOf, ObjectsOf(Dir(cs), hashOf))
    ensures G.ReachSet(GraphOf(objects, hashOf, readText), {hashOf(ObjectOf(Dir(cs), hashOf))}) ==
            HashesOf(ObjectsOf(Dir(cs), hashOf), hashOf)
  {
    hide ParseHeader, Format, G.Reaches, GraphOf, EncodeEntries, EntriesOf, WellFormed, Storable, Has, ObjectOf;
    var store, root := GraphOf(objects, hashOf, readText), hashOf(ObjectOf(Dir(cs), hashOf));
    var all := HashesOf(ObjectsOf(Dir(cs), hashOf), hashOf);
    NodeReaches(Dir(cs), objects, hashOf, readText);
    assert ObjectOf(Dir(cs), hashOf) in ObjectsOf(Dir(cs), hashOf);
    forall g | g in all
      ensures exists r :: r in {root} && G.Reaches(store, r, g)
    {
      assert G.Reaches(store, root, g);
    }
    G.ReachSetUnique(store, {root}, all);
  }

  /** What pruning leaves of the stored bytes. */
  ghost function Pruned(objects: Objects, hashOf: Bytes -> Hash, readText: Bytes -> G.Object,
                        roots: set<Hash>): Objects {
    map h | h in objects && h in Gc.Kept(GraphOf(objects, hashOf, readText), roots) :: objects[h]
  }

  /** A directory whose root is reachable can still be checked out after pruning, exactly as it was. */
  lemma PrunedStillChecksOut(cs: seq<Child>, objects: Objects, hashOf: Bytes -> Hash,
                                                readText: Bytes -> G.Object, roots: set<Hash>)
    requires WellFormed(Dir(cs)) && Storable(Dir(cs)) && Has(objects, hashOf, ObjectsOf(Dir(cs), hashOf))
    requires hashOf(ObjectOf(Dir(cs), hashOf)) in G.ReachSet(GraphOf(objects, hashOf, readText), roots)
    ensures var root := hashOf(ObjectOf(Dir(cs), hashOf));
            Checkout(Pruned(objects, hashOf, readText, roots), hashOf, root, Height(Dir(cs))) == Ok(cs)
  {
    hide ObjectsOf, WellFormed, Storable, ObjectOf, Checkout, G.Reaches, ObjectIn;
    var store, root := GraphOf(objects, hashOf, readText), hashOf(ObjectOf(Dir(cs), hashOf));
    var kept := Pruned(objects, hashOf, readText, roots);
    NodeReaches(Dir(cs), objects, hashOf, readText);
    G.ReachSetClosed(store, roots);
    forall b | b in ObjectsOf(Dir(cs), hashOf)
      ensures hashOf(b) in kept && kept[hashOf(b)] == b
    {
      G.ClosedReaches(store, G.ReachSet(store, roots), root, hashOf(b));
    }
    CheckoutRestores(kept, hashOf, cs, Height(Dir(cs)));
  }

  // ---------------------------------------------------------------------------------------------
  // A checkout that succeeds has found everything
  // ---------------------------------------------------------------------------------------------

  /** Checked out as a directory, or read as a file. */
  ghost predicate Obtained(objects: Objects, hashOf: Bytes -> Hash, h: Hash) {
    (exists fuel: nat :: Checkout(objects, hashOf, h, fuel).Ok?) || ReadAs(objects, hashOf, h, BlobType).Ok?
  }

  lemma {:induction false} EachEntryOk(objects: Objects, hashOf: Bytes -> Hash, es: seq<Entry>, fuel: nat, i: nat)
    requires i < |es| && CheckoutEntries(objects, hashOf, es, fuel).Ok?
    ensures CheckoutEntry(objects, hashOf, es[i], fuel).Ok?
    decreases |es|
  {
    hide CheckoutEntry;
    if i < |es| - 1 {
      EachEntryOk(objects, hashOf, es[..|es| - 1], fuel, i);
    }
  }

  lemma EntryObtained(objects: Objects, hashOf: Bytes -> Hash, e: Entry, fuel: nat)
    requires CheckoutEntry(objects, hashOf, e, fuel).Ok?
    ensures Obtained(objects, hashOf, e.hash)
  {
    hide Checkout, ReadAs;
    if e.isTree {
      assert Checkout(objects, hashOf, e.hash, fuel).Ok?;
    }
  }

  lemma BlobHasNoRefs(objects: Objects, hashOf: Bytes -> Hash, readText: Bytes -> G.Object, h: Hash)
    requires ReadAs(objects, hashOf, h, BlobType).Ok?
    ensures G.Refs(GraphOf(objects, hashOf, readText), h) == []
  {
    hide ParseHeader, Parsed;
  }

  lemma TreeRefsAre(objects: Objects, hashOf: Bytes -> Hash, readText: Bytes -> G.Object, h: Hash)
    requires TreeEntries(objects, hashOf, h).Ok?
    ensures G.Refs(GraphOf(objects, hashOf, readText), h) == G.EntryHashes(TreeEntries(objects, hashOf, h).value)
  {
    hide ParseHeader, Parsed;
  }

  /** What an obtained object refers to was obtained as well. */
  lemma RefObtained(objects: Objects, hashOf: Bytes -> Hash, readText: Bytes -> G.Object, h: Hash, g: Hash)
    requires Obtained(objects, hashOf, h) && g in G.Refs(GraphOf(objects, hashOf, readText), h)
    ensures Obtained(objects, hashOf, g)
  {
    hide CheckoutEntry, ReadAs, TreeEntries, CheckoutEntries, GraphOf, DistinctInOrder, Obtained, G.Refs, Checkout;
    if ReadAs(objects, hashOf, h, BlobType).Ok? {
      BlobHasNoRefs(objects, hashOf, readText, h);
    } else {
      var fuel := DepthOf(objects, hashOf, h);
      TreeRefsAre(objects, hashOf, readText, h);
      var es := TreeEntries(objects, hashOf, h).value;
      var i :| 0 <= i < |es| && G.EntryHashes(es)[i] == g;
      EachEntryOk(objects, hashOf, es, fuel - 1, i);
      EntryObtained(objects, hashOf, es[i], fuel - 1);
    }
  }

  lemma DepthOf(objects: Objects, hashOf: Bytes -> Hash, h: Hash) returns (fuel: nat)
    requires Obtained(objects, hashOf, h) && !ReadAs(objects, hashOf, h, BlobType).Ok?
    ensures fuel > 0 && TreeEntries(objects, hashOf, h).Ok?
    ensures CheckoutEntries(objects, hashOf, TreeEntries(objects, hashOf, h).value, fuel - 1).Ok?
  {
    hide CheckoutEntries, TreeEntries, ReadAs;
    fuel :| Checkout(objects, hashOf, h, fuel).Ok?;
  }

  lemma {:induction false} PathObtained(objects: Objects, hashOf: Bytes -> Hash, readText: Bytes -> G.Object,
                                        p: seq<Hash>)
    requires G.IsPath(GraphOf(objects, hashOf, readText), p) && Obtained(objects, hashOf, p[0])
    ensures Obtained(objects, hashOf, p[|p| - 1])
    decreases |p|
  {
    hide Obtained, GraphOf, G.Refs;
    if |p| > 1 {
      var init := p[..|p| - 1];
      var store := GraphOf(objects, hashOf, readText);
      forall i | 0 <= i < |init| - 1
        ensures init[i + 1] in G.Refs(store, init[i])
      {
        assert p[i + 1] in G.Refs(store, p[i]);
      }
      PathObtained(objects, hashOf, readText, init);
      var i := |p| - 2;
      assert p[i + 1] in G.Refs(store, p[i]);
      RefObtained(objects, hashOf, readText, p[i], p[i + 1]);
    }
  }

  lemma ObtainedIsStored(objects: Objects, hashOf: Bytes -> Hash, h: Hash)
    requires Obtained(objects, hashOf, h)
    ensures h in objects && hashOf(objects[h]) == h
  {
    hide ParseHeader, Parsed, CheckoutEntries;
    if !ReadAs(objects, hashOf, h, BlobType).Ok? {
      var fuel: nat :| Checkout(objects, hashOf, h, fuel).Ok?;
    }
  }

  /** A checkout that succeeds has found every object reachable from the root, undamaged: where one is
      missing, or its bytes no longer have its hash, the checkout fails. */
  lemma CheckoutNeedsAll(objects: Objects, hashOf: Bytes -> Hash, readText: Bytes -> G.Object, h: Hash, fuel: nat)
    requires Checkout(objects, hashOf, h, fuel).Ok?
    ensures forall g :: g in G.ReachSet(GraphOf(objects, hashOf, readText), {h}) ==>
              g in objects && hashOf(objects[g]) == g
  {
    hide Obtained, GraphOf, Checkout, G.ReachSet;
    assert Obtained(objects, hashOf, h) by { RootObtained(objects, hashOf, h, fuel); }
    var store := GraphOf(objects, hashOf, readText);
    forall g | g in G.ReachSet(store, {h})
      ensures g in objects && hashOf(objects[g]) == g
    {
      G.ReachSetIsReach(store, {h}, g);
      var p :| G.Path(store, h, g, p);
      PathObtained(objects, hashOf, readText, p);
      ObtainedIsStored(objects, hashOf, g);
    }
  }

  lemma RootObtained(objects: Objects, hashOf: Bytes -> Hash, h: Hash, fuel: nat)
    requires Checkout(objects, hashOf, h, fuel).Ok?
    ensures Obtained(objects, hashOf, h)
  {
    hide Checkout;
  }
}
