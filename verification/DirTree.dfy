/** Directories, the objects they become, and what a root hash says about them. */
module DirTree {
  import opened Common
  import opened ByteOrder
  import opened ObjectFormat
  import opened TreeFormat

  /** A directory lists its children in name order, as reading it does. */
  datatype Node =
    | File(content: Bytes, exec: bool)
    | Symlink(target: Bytes)
    | Dir(children: seq<Child>)
    | Special

  datatype Child = Child(name: Bytes, node: Node)

  const META: Bytes := [46, 109, 115, 121, 110, 99] // ".msync"

  ghost predicate NamesAscend(cs: seq<Child>) {
    forall i, j :: 0 <= i < j < |cs| ==> Less(cs[i].name, cs[j].name)
  }

  /** What a file system can hold: distinct names in order, none with a zero byte. */
  ghost predicate WellFormed(n: Node) {
    n.Dir? ==> NamesAscend(n.children) &&
               forall i :: 0 <= i < |n.children| ==> NUL !in n.children[i].name && WellFormed(n.children[i].node)
  }

  /** What is stored of a child: nothing if it is the metadata directory, ignored, a device or a socket. */
  function VisibleChild(c: Child, path: seq<Bytes>, ignores: seq<Bytes> -> bool): Option<Child> {
    if c.name == META || ignores(path + [c.name]) || c.node.Special? then None
    else if c.node.Dir? then Some(Child(c.name, Dir(Visible(c.node.children, path + [c.name], ignores))))
    else Some(c)
  }

  function Visible(cs: seq<Child>, path: seq<Bytes>, ignores: seq<Bytes> -> bool): seq<Child> {
    if cs == [] then []
    else
      (match VisibleChild(cs[0], path, ignores) case None => [] case Some(c) => [c]) +
      Visible(cs[1..], path, ignores)
  }

  function ModeOf(n: Node): nat {
    match n
    case File(_, exec) => if exec then MODE_EXEC else MODE_REGULAR
    case Symlink(_) => MODE_SYMLINK
    case Dir(_) => MODE_DIR
    case Special => 0
  }

  /** The serialized object of a node; a directory names its children by their hashes. */
  function ObjectOf(n: Node, hashOf: Bytes -> Hash): Bytes {
    match n
    case File(content, _) => Format(BlobType, content)
    case Symlink(target) => Format(BlobType, target)
    case Dir(children) => Format(TreeType, EncodeEntries(EntriesOf(children, hashOf)))
    case Special => []
  }

  function EntriesOf(cs: seq<Child>, hashOf: Bytes -> Hash): (es: seq<Entry>)
    ensures |es| == |cs|
  {
    if cs == [] then []
    else
      [Entry(ModeOf(cs[0].node), cs[0].name, hashOf(ObjectOf(cs[0].node, hashOf)), cs[0].node.Dir?)] +
      EntriesOf(cs[1..], hashOf)
  }

  /** No device or socket anywhere. */
  predicate Storable(n: Node) {
    match n
    case Dir(children) => forall i :: 0 <= i < |children| ==> Storable(children[i].node)
    case Special => false
    case File(_, _) => true
    case Symlink(_) => true
  }

  /** Every object a stored node consists of. */
  function ObjectsOf(n: Node, hashOf: Bytes -> Hash): set<Bytes> {
    {ObjectOf(n, hashOf)} +
    (if n.Dir? then set i, b | 0 <= i < |n.children| && b in ObjectsOf(n.children[i].node, hashOf) :: b else {})
  }

  ghost predicate NoCollision(s: set<Bytes>, hashOf: Bytes -> Hash) {
    forall x, y :: x in s && y in s && hashOf(x) == hashOf(y) ==> x == y
  }

  lemma {:induction false} EntryAt(cs: seq<Child>, hashOf: Bytes -> Hash, i: nat)
    requires i < |cs|
    ensures EntriesOf(cs, hashOf)[i] ==
            Entry(ModeOf(cs[i].node), cs[i].name, hashOf(ObjectOf(cs[i].node, hashOf)), cs[i].node.Dir?)
  {
    if i > 0 {
      EntryAt(cs[1..], hashOf, i - 1);
    }
  }

  lemma {:induction false} EntriesPlain(cs: seq<Child>, hashOf: Bytes -> Hash)
    requires forall i :: 0 <= i < |cs| ==> NUL !in cs[i].name
    ensures AllPlain(EntriesOf(cs, hashOf))
  {
    forall i | 0 <= i < |cs|
      ensures Plain(EntriesOf(cs, hashOf)[i])
    {
      EntryAt(cs, hashOf, i);
    }
  }

  /** Two stored directories with the same root hash are equal, all the way down. */
  lemma {:induction false} SameHashSameNode(n: Node, m: Node, hashOf: Bytes -> Hash, s: set<Bytes>)
    requires WellFormed(n) && WellFormed(m) && Storable(n) && Storable(m)
    requires ObjectsOf(n, hashOf) + ObjectsOf(m, hashOf) <= s && NoCollision(s, hashOf)
    requires ModeOf(n) == ModeOf(m) && hashOf(ObjectOf(n, hashOf)) == hashOf(ObjectOf(m, hashOf))
    ensures n == m
    decreases n
  {
    hide Format, EncodeEntries;
    assert ObjectOf(n, hashOf) == ObjectOf(m, hashOf);
    match n
    case File(content, _) =>
      FormatInjective(BlobType, content, BlobType, m.content);
    case Symlink(target) =>
      FormatInjective(BlobType, target, BlobType, m.target);
    case Dir(cs) =>
      var ds := m.children;
      var es, fs := EntriesOf(cs, hashOf), EntriesOf(ds, hashOf);
      FormatInjective(TreeType, EncodeEntries(es), TreeType, EncodeEntries(fs));
      EntriesPlain(cs, hashOf);
      EntriesPlain(ds, hashOf);
      EntriesInjective(es, fs);
      forall i | 0 <= i < |cs|
        ensures cs[i] == ds[i]
      {
        EntryAt(cs, hashOf, i);
        EntryAt(ds, hashOf, i);
        ChildObjects(cs, hashOf, i);
        ChildObjects(ds, hashOf, i);
        SameHashSameNode(cs[i].node, ds[i].node, hashOf, s);
      }
  }

  lemma ChildObjects(cs: seq<Child>, hashOf: Bytes -> Hash, i: nat)
    requires i < |cs|
    ensures ObjectsOf(cs[i].node, hashOf) <= ObjectsOf(Dir(cs), hashOf)
  {
    var n := Dir(cs);
    forall b | b in ObjectsOf(cs[i].node, hashOf)
      ensures b in ObjectsOf(n, hashOf)
    {
      assert b in ObjectsOf(n.children[i].node, hashOf);
    }
  }
}
