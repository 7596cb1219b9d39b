/** The content-addressed store, building trees into it and checking them out of it. */
module TreeStore {
  import opened Common
  import opened ByteOrder
  import opened ObjectFormat
  import opened TreeFormat
  import opened DirTree
  import opened TreePaths

  type Objects = map<Hash, Bytes>

  /** `Read`: the stored bytes, if they still have the hash they are filed under. */
  function Read(objects: Objects, hashOf: Bytes -> Hash, h: Hash): Result<Bytes> {
    if h in objects && hashOf(objects[h]) == h then Ok(objects[h]) else Err
  }

  /** `ReadContent` of an object of the given type. */
  function ReadAs(objects: Objects, hashOf: Bytes -> Hash, h: Hash, kind: ObjectType): Result<Bytes> {
    match Read(objects, hashOf, h)
    case Err => Err
    case Ok(data) => match ParseHeader(data)
      case Err => Err
      case Ok(header) =>
        if |data| - header.offset != header.size || header.kind != kind then Err else Ok(data[header.offset..])
  }

  /** Every object of the node is filed under its hash. */
  ghost predicate Has(objects: Objects, hashOf: Bytes -> Hash, bs: set<Bytes>) {
    forall b :: b in bs ==> hashOf(b) in objects && objects[hashOf(b)] == b
  }

  lemma ReadsBack(objects: Objects, hashOf: Bytes -> Hash, kind: ObjectType, content: Bytes)
    requires Has(objects, hashOf, {Format(kind, content)})
    ensures ReadAs(objects, hashOf, hashOf(Format(kind, content)), kind) == Ok(content)
  {
    hide Format, ParseHeader;
    HeaderRoundTrip(kind, content);
  }

  /** Content is read exactly from bytes that have the hash they are filed under and a header of that
      type whose size is the content's. */
  lemma ReadsExactly(objects: Objects, hashOf: Bytes -> Hash, h: Hash, kind: ObjectType, content: Bytes)
    ensures ReadAs(objects, hashOf, h, kind) == Ok(content) <==>
            h in objects && hashOf(objects[h]) == h &&
            exists n: nat :: HeaderOf(objects[h], kind, |content|, n) && objects[h][n..] == content
  {
    hide ParseHeader, HeaderOf;
    if h in objects {
      var data := objects[h];
      forall n: nat
        ensures ParseHeader(data) == Ok(Header(kind, |content|, n)) <==> HeaderOf(data, kind, |content|, n)
      {
        HeaderExactly(data, kind, |content|, n);
      }
      if n: nat :| HeaderOf(data, kind, |content|, n) && data[n..] == content {
        assert ParseHeader(data) == Ok(Header(kind, |content|, n));
      }
      if ReadAs(objects, hashOf, h, kind) == Ok(content) {
        var n := ParseHeader(data).value.offset;
        assert ParseHeader(data) == Ok(Header(kind, |content|, n));
        assert HeaderOf(data, kind, |content|, n);
      }
    }
  }

  class ObjectStore {
    const hashOf: Bytes -> Hash
    var objects: Objects

    constructor (hashOf: Bytes -> Hash)
      ensures this.hashOf == hashOf && objects == map[]
    {
      this.hashOf := hashOf;
      objects := map[];
    }

    /** Nothing stored, and nothing about to be, collides. */
    ghost predicate Safe(s: set<Bytes>)
      reads this
    {
      NoCollision(s, hashOf) && forall h :: h in objects ==> objects[h] in s && hashOf(objects[h]) == h
    }

    /** `Write`: skips objects that exist already. Among objects s that do not collide, what was
        written can be found again. */
    method Write(data: Bytes, ghost s: set<Bytes>) returns (h: Hash)
      modifies this
      ensures h == hashOf(data)
      ensures objects == if h in old(objects) then old(objects) else old(objects)[h := data]
      ensures old(Safe(s)) && data in s ==> Safe(s) && Has(objects, hashOf, {data})
    {
      h := hashOf(data);
      if h in objects {
        return;
      }
      objects := objects[h := data];
    }

    /** `Write` among objects that do not collide. */
    method WriteNew(data: Bytes, ghost s: set<Bytes>) returns (h: Hash)
      requires Safe(s) && data in s
      modifies this
      ensures Safe(s) && h == hashOf(data)
      ensures Has(objects, hashOf, {data}) && Extends(old(objects), objects)
    {
      h := Write(data, s);
    }

    /** Stores a directory bottom-up; the result is the hash of its root tree. */
    method BuildTree(children: seq<Child>, path: seq<Bytes>, ignores: seq<Bytes> -> bool, ghost s: set<Bytes>)
      returns (h: Hash)
      requires Safe(s) && NamesAscend(children)
      requires forall i :: 0 <= i < |children| ==> WellFormed(children[i].node)
      requires ObjectsOf(Dir(Visible(children, path, ignores)), hashOf) <= s
      modifies this
      ensures Safe(s) && Extends(old(objects), objects)
      ensures h == hashOf(ObjectOf(Dir(Visible(children, path, ignores)), hashOf))
      ensures Has(objects, hashOf, ObjectsOf(Dir(Visible(children, path, ignores)), hashOf))
      ensures HoldsContents(objects, hashOf, children, path, ignores)
      decreases children, 1
    {
      hide Visible, HoldsContents, VisibleChild, ObjectsOf, EntriesOf, WellFormed, Format;
      ghost var vis := Visible(children, path, ignores);
      var treeEntries := StoreChildren(children, path, ignores, s);
      VisibleAscends(children, path, ignores);
      EntriesAscend(vis, hashOf);
      var treeData := SerializeTree(treeEntries);
      SelfObject(Dir(vis), hashOf);
      assert ObjectOf(Dir(vis), hashOf) == Format(TreeType, treeData);
      h := WriteNew(Format(TreeType, treeData), s);
      HasDir(objects, hashOf, vis);
      ContentsHeld(objects, hashOf, children, path, ignores);
    }

    method StoreChildren(children: seq<Child>, path: seq<Bytes>, ignores: seq<Bytes> -> bool, ghost s: set<Bytes>)
      returns (treeEntries: seq<Entry>)
      requires Safe(s)
      requires forall i :: 0 <= i < |children| ==> WellFormed(children[i].node)
      requires ObjectsOf(Dir(Visible(children, path, ignores)), hashOf) <= s
      modifies this
      ensures Safe(s) && Extends(old(objects), objects)
      ensures var vis := Visible(children, path, ignores);
              treeEntries == EntriesOf(vis, hashOf) &&
              forall j :: 0 <= j < |vis| ==> Has(objects, hashOf, ObjectsOf(vis[j].node, hashOf))
      decreases children, 0
    {
      hide Visible, VisibleChild, ObjectsOf, WellFormed, Format;
      ghost var vis := Visible(children, path, ignores);
      ghost var done: seq<Child> := [];
      treeEntries := [];
      for i := 0 to |children|
        invariant Safe(s) && Extends(old(objects), objects)
        invariant vis == done + Visible(children[i..], path, ignores)
        invariant treeEntries == EntriesOf(done, hashOf)
        invariant forall j :: 0 <= j < |done| ==> Has(objects, hashOf, ObjectsOf(done[j].node, hashOf))
      {
        VisibleStep(children[i..], path, ignores);
        ghost var v := VisibleChild(children[i], path, ignores);
        if v.Some? {
          ChildObjects(vis, hashOf, |done|);
          EntriesAppend(done, v.value, hashOf);
        }
        var entry := StoreChild(children[i], path, ignores, s);
        if entry.Some? {
          treeEntries := treeEntries + [entry.value];
          done := done + [v.value];
        }
      }
      VisibleNil(path, ignores);
      assert children[|children|..] == [] && vis == done;
    }

    /** One directory entry: skipped, or stored and described. */
    method StoreChild(c: Child, path: seq<Bytes>, ignores: seq<Bytes> -> bool, ghost s: set<Bytes>)
      returns (entry: Option<Entry>)
      requires Safe(s) && WellFormed(c.node)
      requires VisibleChild(c, path, ignores).Some? ==>
                 ObjectsOf(VisibleChild(c, path, ignores).value.node, hashOf) <= s
      modifies this
      ensures Safe(s) && Extends(old(objects), objects)
      ensures entry == match VisibleChild(c, path, ignores)
                       case None => None
                       case Some(v) => Some(EntryFor(v, hashOf))
      ensures entry.Some? ==> Has(objects, hashOf, ObjectsOf(VisibleChild(c, path, ignores).value.node, hashOf))
      decreases c
    {
      if c.name == META {
        return None;
      }
      if ignores(path + [c.name]) {
        return None;
      }
      match c.node
      case Dir(children) =>
        var h := BuildTree(children, path + [c.name], ignores, s);
        entry := Some(Entry(MODE_DIR, c.name, h, true));
      case Symlink(target) =>
        var h := WriteNew(Format(BlobType, target), s);
        entry := Some(Entry(MODE_SYMLINK, c.name, h, false));
      case File(content, exec) =>
        var h := WriteNew(Format(BlobType, content), s);
        entry := Some(Entry(if exec then MODE_EXEC else MODE_REGULAR, c.name, h, false));
      case Special =>
        entry := None;
    }
  }

  /** Of every path that is not hidden the file content or link target can be found. */
  ghost predicate HoldsContents(objects: Objects, hashOf: Bytes -> Hash, children: seq<Child>, path: seq<Bytes>,
                                ignores: seq<Bytes> -> bool) {
    forall p: seq<Bytes> | p != [] && ContentOf(Unhidden(children, path, ignores, p)).Some? ::
      Has(objects, hashOf, {Format(BlobType, ContentOf(Unhidden(children, path, ignores, p)).value)})
  }

  lemma ContentsHeld(objects: Objects, hashOf: Bytes -> Hash, children: seq<Child>, path: seq<Bytes>,
                     ignores: seq<Bytes> -> bool)
    requires NamesAscend(children) && forall i :: 0 <= i < |children| ==> WellFormed(children[i].node)
    requires Has(objects, hashOf, ObjectsOf(Dir(Visible(children, path, ignores)), hashOf))
    ensures HoldsContents(objects, hashOf, children, path, ignores)
  {
    hide Visible, ObjectsOf, Format, Lookup, ContentOf, Unhidden, Less;
    forall p: seq<Bytes> | p != [] && ContentOf(Unhidden(children, path, ignores, p)).Some?
      ensures Has(objects, hashOf, {Format(BlobType, ContentOf(Unhidden(children, path, ignores, p)).value)})
    {
      VisibleLookup(children, path, ignores, p);
      FoundIsStored(Visible(children, path, ignores), p, hashOf);
    }
  }

  ghost predicate Extends(before: Objects, after: Objects) {
    forall h :: h in before ==> h in after && after[h] == before[h]
  }

  function EntryFor(c: Child, hashOf: Bytes -> Hash): Entry {
    Entry(ModeOf(c.node), c.name, hashOf(ObjectOf(c.node, hashOf)), c.node.Dir?)
  }

  lemma {:induction false} EntriesAppend(cs: seq<Child>, c: Child, hashOf: Bytes -> Hash)
    ensures EntriesOf(cs + [c], hashOf) == EntriesOf(cs, hashOf) + [EntryFor(c, hashOf)]
    decreases |cs|
  {
    if cs == [] {
      assert cs + [c] == [c];
      assert EntriesOf([c], hashOf) == [EntryFor(c, hashOf)] + EntriesOf([], hashOf);
    } else {
      assert (cs + [c])[1..] == cs[1..] + [c];
      EntriesAppend(cs[1..], c, hashOf);
    }
  }

  lemma EntriesAscend(cs: seq<Child>, hashOf: Bytes -> Hash)
    requires NamesAscend(cs)
    ensures StrictlyBy(EntriesOf(cs, hashOf), NameOf)
  {
    hide Less;
    var es := EntriesOf(cs, hashOf);
    forall i, j | 0 <= i < j < |es|
      ensures Less(NameOf(es[i]), NameOf(es[j]))
    {
      EntryAt(cs, hashOf, i);
      EntryAt(cs, hashOf, j);
    }
  }

  lemma SelfObject(n: Node, hashOf: Bytes -> Hash)
    ensures ObjectOf(n, hashOf) in ObjectsOf(n, hashOf)
  {
  }

  lemma HasDir(objects: Objects, hashOf: Bytes -> Hash, cs: seq<Child>)
    requires Has(objects, hashOf, {ObjectOf(Dir(cs), hashOf)})
    requires forall i :: 0 <= i < |cs| ==> Has(objects, hashOf, ObjectsOf(cs[i].node, hashOf))
    ensures Has(objects, hashOf, ObjectsOf(Dir(cs), hashOf))
  {
    var n := Dir(cs);
    forall b | b in ObjectsOf(n, hashOf)
      ensures hashOf(b) in objects && objects[hashOf(b)] == b
    {
      if b != ObjectOf(n, hashOf) {
        var i :| 0 <= i < |n.children| && b in ObjectsOf(n.children[i].node, hashOf);
        assert Has(objects, hashOf, ObjectsOf(cs[i].node, hashOf));
      } else {
        assert b in {ObjectOf(Dir(cs), hashOf)};
      }
    }
  }
}
