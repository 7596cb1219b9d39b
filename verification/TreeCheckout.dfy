/** Checking a tree out into an empty directory, and the two laws of tree building: the directory
    comes back, and equal root hashes mean equal directories. */
module TreeCheckout {
  import opened Common
  import opened ByteOrder
  import opened ObjectFormat
  import opened TreeFormat
  import opened DirTree
  import opened TreePaths
  import opened TreeStore

  predicate DistinctInOrder(es: seq<Entry>) {
    forall i, j :: 0 <= i < j < |es| ==> Less(es[i].name, es[j].name)
  }

  /** The entries of a stored tree. Unlike for blobs the size in the header is not compared. */
  function TreeEntries(objects: Objects, hashOf: Bytes -> Hash, h: Hash): Result<seq<Entry>> {
    match Read(objects, hashOf, h)
    case Err => Err
    case Ok(data) => match ParseHeader(data)
      case Err => Err
      case Ok(header) => if header.kind != TreeType then Err else Parsed(data[header.offset..])
  }

  function FileNode(mode: nat, content: Bytes): Node {
    if mode == MODE_EXEC then File(content, true)
    else if mode == MODE_SYMLINK then Symlink(content)
    else File(content, false)
  }

  /** The mode numbers: 0100755 for an executable file, 0120000 for a link, 0040000 for a directory and
      0100644 for any other file. Checking out, every number but the first two is a plain file. */
  lemma ModesExactly(n: Node, mode: nat, content: Bytes)
    ensures n.File? ==> ModeOf(n) == if n.exec then 0x81ED else 0x81A4
    ensures n.Symlink? ==> ModeOf(n) == 0xA000
    ensures n.Dir? ==> ModeOf(n) == 0x4000
    ensures FileNode(mode, content) == if mode == 0xA000 then Symlink(content) else File(content, mode == 0x81ED)
  {
  }

  /** The directory a tree is checked out to, descending at most fuel levels. */
  function Checkout(objects: Objects, hashOf: Bytes -> Hash, h: Hash, fuel: nat): Result<seq<Child>>
    decreases fuel, 0, 0
  {
    if fuel == 0 then Err
    else match TreeEntries(objects, hashOf, h)
      case Err => Err
      case Ok(es) => if DistinctInOrder(es) then CheckoutEntries(objects, hashOf, es, fuel - 1) else Err
  }

  function CheckoutEntries(objects: Objects, hashOf: Bytes -> Hash, es: seq<Entry>, fuel: nat): Result<seq<Child>>
    decreases fuel, 2, |es|
  {
    if es == [] then Ok([])
    else
      var init := CheckoutEntries(objects, hashOf, es[..|es| - 1], fuel);
      var last := CheckoutEntry(objects, hashOf, es[|es| - 1], fuel);
      if init.Ok? && last.Ok? then Ok(init.value + [last.value]) else Err
  }

  function CheckoutEntry(objects: Objects, hashOf: Bytes -> Hash, e: Entry, fuel: nat): Result<Child>
    decreases fuel, 1, 0
  {
    if e.isTree then
      match Checkout(objects, hashOf, e.hash, fuel)
      case Err => Err
      case Ok(cs) => Ok(Child(e.name, Dir(cs)))
    else
      match ReadAs(objects, hashOf, e.hash, BlobType)
      case Err => Err
      case Ok(content) => Ok(Child(e.name, FileNode(e.mode, content)))
  }

  predicate Named(es: seq<Entry>, name: Bytes) {
    exists i :: 0 <= i < |es| && es[i].name == name
  }

  /** What `cleanDir` leaves: names the tree has, and the metadata directory. */
  function Cleaned(dir: seq<Child>, es: seq<Entry>): seq<Child> {
    if dir == [] then []
    else
      (if dir[0].name == META || Named(es, dir[0].name) then [dir[0]] else []) + Cleaned(dir[1..], es)
  }

  /** Cleaning removes exactly what the tree does not have, the metadata directory excepted. */
  lemma {:induction false} CleanedExactly(dir: seq<Child>, es: seq<Entry>, c: Child)
    ensures c in Cleaned(dir, es) <==>
            c in dir && (c.name == META || exists i :: 0 <= i < |es| && es[i].name == c.name)
  {
    if dir != [] {
      CleanedExactly(dir[1..], es, c);
    }
  }

  lemma {:induction false} CleanedKeeps(dir: seq<Child>, es: seq<Entry>)
    requires forall j :: 0 <= j < |dir| ==> Named(es, dir[j].name)
    ensures Cleaned(dir, es) == dir
    decreases |dir|
  {
    if dir != [] {
      CleanedKeeps(dir[1..], es);
    }
  }

  lemma CleanedSame(dir: seq<Child>, es: seq<Entry>)
    requires |dir| == |es| && forall j :: 0 <= j < |es| ==> dir[j].name == es[j].name
    ensures Cleaned(dir, es) == dir
  {
    CleanedKeeps(dir, es);
  }

  /** Writes the entries of a tree into an empty directory, then cleans it. */
  method CheckoutTree(objects: Objects, hashOf: Bytes -> Hash, h: Hash, fuel: nat) returns (r: Result<seq<Child>>)
    ensures r == Checkout(objects, hashOf, h, fuel)
    decreases fuel, 0
  {
    hide TreeEntries, DistinctInOrder, CheckoutEntry, Cleaned;
    if fuel == 0 {
      return Err;
    }
    var entries := TreeEntries(objects, hashOf, h);
    match entries
    case Err =>
      return Err;
    case Ok(es) =>
      if !DistinctInOrder(es) {
        return Err;
      }
      var dir: seq<Child> := [];
      for i := 0 to |es|
        invariant CheckoutEntries(objects, hashOf, es[..i], fuel - 1) == Ok(dir)
        invariant |dir| == i && forall j :: 0 <= j < i ==> dir[j].name == es[j].name
      {
        assert es[..i + 1][..i] == es[..i];
        var c := WriteEntry(objects, hashOf, es[i], fuel - 1);
        if c.Err? {
          ErrStays(objects, hashOf, es, i + 1, fuel - 1);
          return Err;
        }
        dir := dir + [c.value];
      }
      assert es[..|es|] == es;
      CleanedSame(dir, es);
      r := Ok(Cleaned(dir, es));
  }

  /** One entry: a subdirectory to descend into, or a file or link to write. */
  method WriteEntry(objects: Objects, hashOf: Bytes -> Hash, e: Entry, fuel: nat) returns (r: Result<Child>)
    ensures r == CheckoutEntry(objects, hashOf, e, fuel)
    ensures r.Ok? ==> r.value.name == e.name
    decreases fuel, 1
  {
    hide ReadAs, Checkout;
    if e.isTree {
      var sub := CheckoutTree(objects, hashOf, e.hash, fuel);
      match sub
      case Err => r := Err;
      case Ok(cs) => r := Ok(Child(e.name, Dir(cs)));
    } else {
      var content := ReadAs(objects, hashOf, e.hash, BlobType);
      match content
      case Err => r := Err;
      case Ok(bytes) => r := Ok(Child(e.name, FileNode(e.mode, bytes)));
    }
  }

  lemma {:induction false} ErrStays(objects: Objects, hashOf: Bytes -> Hash, es: seq<Entry>, i: nat, fuel: nat)
    requires i <= |es| && CheckoutEntries(objects, hashOf, es[..i], fuel).Err?
    ensures CheckoutEntries(objects, hashOf, es, fuel).Err?
    decreases |es|
  {
    hide CheckoutEntry;
    if i < |es| {
      assert es[..|es| - 1][..i] == es[..i];
      ErrStays(objects, hashOf, es[..|es| - 1], i, fuel);
    } else {
      assert es[..i] == es;
    }
  }

  function Height(n: Node): nat {
    if n.Dir? then 1 + HeightOf(n.children) else 0
  }

  function HeightOf(cs: seq<Child>): nat {
    if cs == [] then 0
    else
      var rest := HeightOf(cs[1..]);
      if Height(cs[0].node) > rest then Height(cs[0].node) else rest
  }

  lemma {:induction false} ChildHeight(cs: seq<Child>, i: nat)
    requires i < |cs|
    ensures Height(cs[i].node) <= HeightOf(cs)
  {
    if i > 0 {
      ChildHeight(cs[1..], i - 1);
    }
  }

  /** A stored directory is checked out as it was. */
  lemma {:induction false} CheckoutRestores(objects: Objects, hashOf: Bytes -> Hash, cs: seq<Child>, fuel: nat)
    requires WellFormed(Dir(cs)) && Storable(Dir(cs)) && Has(objects, hashOf, ObjectsOf(Dir(cs), hashOf))
    requires Height(Dir(cs)) <= fuel
    ensures Checkout(objects, hashOf, hashOf(ObjectOf(Dir(cs), hashOf)), fuel) == Ok(cs)
    decreases fuel, 1, 0
  {
    hide Format, ParseHeader, EncodeEntries, Parsed, ObjectsOf, Less;
    var n, es := Dir(cs), EntriesOf(cs, hashOf);
    SelfObject(n, hashOf);
    HeaderRoundTrip(TreeType, EncodeEntries(es));
    EntriesPlain(cs, hashOf);
    EntriesRoundTrip(es);
    forall i, j | 0 <= i < j < |es|
      ensures Less(es[i].name, es[j].name)
    {
      EntryAt(cs, hashOf, i);
      EntryAt(cs, hashOf, j);
    }
    RestoresPrefix(objects, hashOf, cs, fuel, |cs|);
    assert es[..|es|] == es && cs[..|cs|] == cs;
  }

  lemma {:induction false} RestoresPrefix(objects: Objects, hashOf: Bytes -> Hash, cs: seq<Child>, fuel: nat, k: nat)
    requires WellFormed(Dir(cs)) && Storable(Dir(cs)) && Has(objects, hashOf, ObjectsOf(Dir(cs), hashOf))
    requires Height(Dir(cs)) <= fuel && k <= |cs|
    ensures CheckoutEntries(objects, hashOf, EntriesOf(cs, hashOf)[..k], fuel - 1) == Ok(cs[..k])
    decreases fuel, 0, k
  {
    hide ObjectsOf, ObjectOf, CheckoutEntry, WellFormed, Storable, Height, Has, ModeOf;
    var es := EntriesOf(cs, hashOf);
    if k > 0 {
      RestoresPrefix(objects, hashOf, cs, fuel, k - 1);
      assert es[..k][..k - 1] == es[..k - 1];
      EntryAt(cs, hashOf, k - 1);
      ChildGood(objects, hashOf, cs, fuel, k - 1);
      RestoresEntry(objects, hashOf, cs[k - 1], fuel - 1);
      assert cs[..k] == cs[..k - 1] + [cs[k - 1]];
    }
  }

  lemma ChildGood(objects: Objects, hashOf: Bytes -> Hash, cs: seq<Child>, fuel: nat, i: nat)
    requires WellFormed(Dir(cs)) && Storable(Dir(cs)) && Has(objects, hashOf, ObjectsOf(Dir(cs), hashOf))
    requires Height(Dir(cs)) <= fuel && i < |cs|
    ensures 0 < fuel && Height(cs[i].node) <= fuel - 1
    ensures WellFormed(cs[i].node) && Storable(cs[i].node) && Has(objects, hashOf, ObjectsOf(cs[i].node, hashOf))
  {
    hide ObjectsOf;
    ChildObjects(cs, hashOf, i);
    ChildHeight(cs, i);
  }

  lemma {:induction false} RestoresEntry(objects: Objects, hashOf: Bytes -> Hash, c: Child, fuel: nat)
    requires WellFormed(c.node) && Storable(c.node) && Has(objects, hashOf, ObjectsOf(c.node, hashOf))
    requires Height(c.node) <= fuel
    ensures CheckoutEntry(objects, hashOf, EntryFor(c, hashOf), fuel) == Ok(c)
    decreases fuel, 2, 0
  {
    hide Format, ReadAs, Checkout;
    SelfObject(c.node, hashOf);
    match c.node
    case File(content, _) => ReadsBack(objects, hashOf, BlobType, content);
    case Symlink(target) => ReadsBack(objects, hashOf, BlobType, target);
    case Dir(cs) => CheckoutRestores(objects, hashOf, cs, fuel);
  }

  // ---------------------------------------------------------------------------------------------
  // The visible part of a directory is itself a storable directory
  // ---------------------------------------------------------------------------------------------

  lemma {:induction false} VisibleIsStorable(cs: seq<Child>, path: seq<Bytes>, ignores: seq<Bytes> -> bool)
    requires WellFormed(Dir(cs))
    ensures WellFormed(Dir(Visible(cs, path, ignores))) && Storable(Dir(Visible(cs, path, ignores)))
    decreases cs
  {
    hide Less;
    VisibleAscends(cs, path, ignores);
    var vis := Visible(cs, path, ignores);
    forall i | 0 <= i < |vis|
      ensures NUL !in vis[i].name && WellFormed(vis[i].node) && Storable(vis[i].node)
    {
      var j := VisibleNames(cs, path, ignores, i);
      if cs[j].node.Dir? {
        VisibleIsStorable(cs[j].node.children, path + [cs[j].name], ignores);
      }
    }
  }

  /** Building a directory and checking the root out into an empty one restores what is visible of it:
      at every path there is what the directory has there, unless it is hidden or a device. */
  method BuildAndCheckout(store: ObjectStore, children: seq<Child>, path: seq<Bytes>, ignores: seq<Bytes> -> bool,
                          ghost s: set<Bytes>)
    returns (r: Result<seq<Child>>)
    requires WellFormed(Dir(children)) && store.Safe(s)
    requires ObjectsOf(Dir(Visible(children, path, ignores)), store.hashOf) <= s
    modifies store
    ensures r == Ok(Visible(children, path, ignores))
    ensures r.Ok? && forall p: seq<Bytes> | p != [] :: Lookup(r.value, p) == Unhidden(children, path, ignores, p)
  {
    hide ObjectsOf, Visible, Checkout, Lookup, Unhidden, Height, NamesAscend;
    var h := store.BuildTree(children, path, ignores, s);
    VisibleIsStorable(children, path, ignores);
    var fuel := Height(Dir(Visible(children, path, ignores)));
    CheckoutRestores(store.objects, store.hashOf, Visible(children, path, ignores), fuel);
    r := CheckoutTree(store.objects, store.hashOf, h, fuel);
    VisibleAt(children, path, ignores);
  }

  /** What is visible of a directory, path by path. */
  lemma VisibleAt(children: seq<Child>, path: seq<Bytes>, ignores: seq<Bytes> -> bool)
    requires WellFormed(Dir(children))
    ensures forall p: seq<Bytes> | p != [] ::
              Lookup(Visible(children, path, ignores), p) == Unhidden(children, path, ignores, p)
  {
    hide Visible, Lookup, Unhidden, Less;
    forall p: seq<Bytes> | p != []
      ensures Lookup(Visible(children, path, ignores), p) == Unhidden(children, path, ignores, p)
    {
      VisibleLookup(children, path, ignores, p);
    }
  }

  ghost function RootHash(cs: seq<Child>, path: seq<Bytes>, ignores: seq<Bytes> -> bool, hashOf: Bytes -> Hash): Hash {
    hashOf(ObjectOf(Dir(Visible(cs, path, ignores)), hashOf))
  }

  /** At every path both directories show the same. */
  ghost predicate ShowTheSame(cs: seq<Child>, ds: seq<Child>, path: seq<Bytes>, ignores: seq<Bytes> -> bool,
                              path': seq<Bytes>, ignores': seq<Bytes> -> bool) {
    forall p: seq<Bytes> | p != [] :: Unhidden(cs, path, ignores, p) == Unhidden(ds, path', ignores', p)
  }

  lemma ShownDecides(cs: seq<Child>, ds: seq<Child>, path: seq<Bytes>, ignores: seq<Bytes> -> bool,
                     path': seq<Bytes>, ignores': seq<Bytes> -> bool)
    requires WellFormed(Dir(cs)) && WellFormed(Dir(ds))
    ensures Visible(cs, path, ignores) == Visible(ds, path', ignores') <==>
            ShowTheSame(cs, ds, path, ignores, path', ignores')
  {
    hide Visible, Lookup, Unhidden, WellFormed;
    VisibleAt(cs, path, ignores);
    VisibleAt(ds, path', ignores');
    VisibleIsStorable(cs, path, ignores);
    VisibleIsStorable(ds, path', ignores');
    if ShowTheSame(cs, ds, path, ignores, path', ignores') {
      assert SamePaths(Visible(cs, path, ignores), Visible(ds, path', ignores'));
      SamePathsSame(Visible(cs, path, ignores), Visible(ds, path', ignores'));
    }
  }

  /** Two directories get the same root hash exactly when their visible contents are equal, which is when
      at every path both show the same file, link or directory, or both show nothing. */
  lemma {:induction false} SameRootSameContents(cs: seq<Child>, ds: seq<Child>,
                             path: seq<Bytes>, ignores: seq<Bytes> -> bool,
                             path': seq<Bytes>, ignores': seq<Bytes> -> bool,
                             hashOf: Bytes -> Hash, s: set<Bytes>)
    requires WellFormed(Dir(cs)) && WellFormed(Dir(ds)) && NoCollision(s, hashOf)
    requires ObjectsOf(Dir(Visible(cs, path, ignores)), hashOf) <= s
    requires ObjectsOf(Dir(Visible(ds, path', ignores')), hashOf) <= s
    ensures RootHash(cs, path, ignores, hashOf) == RootHash(ds, path', ignores', hashOf) <==>
            Visible(cs, path, ignores) == Visible(ds, path', ignores')
    ensures RootHash(cs, path, ignores, hashOf) == RootHash(ds, path', ignores', hashOf) <==>
            ShowTheSame(cs, ds, path, ignores, path', ignores')
  {
    hide ObjectsOf, Visible, ObjectOf, WellFormed, Storable, ShowTheSame;
    ShownDecides(cs, ds, path, ignores, path', ignores');
    VisibleIsStorable(cs, path, ignores);
    VisibleIsStorable(ds, path', ignores');
    if RootHash(cs, path, ignores, hashOf) == RootHash(ds, path', ignores', hashOf) {
      SameHashSameNode(Dir(Visible(cs, path, ignores)), Dir(Visible(ds, path', ignores')), hashOf, s);
    }
  }
}
