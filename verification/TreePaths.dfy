/** Directories by path: what is found where, and which of it is visible. */
module TreePaths {
  import opened Common
  import opened ByteOrder
  import opened ObjectFormat
  import opened DirTree

  datatype Found = FoundFile(content: Bytes, exec: bool) | FoundLink(target: Bytes) | FoundDir | FoundSpecial

  function KindOf(n: Node): Found {
    match n
    case File(content, exec) => FoundFile(content, exec)
    case Symlink(target) => FoundLink(target)
    case Dir(_) => FoundDir
    case Special => FoundSpecial
  }

  /** Position of the child with a name, or the number of children if there is none. */
  function IndexOf(cs: seq<Child>, name: Bytes): (i: nat)
    ensures i <= |cs| && forall j :: 0 <= j < i ==> cs[j].name != name
    ensures i < |cs| ==> cs[i].name == name
  {
    if cs == [] || cs[0].name == name then 0 else 1 + IndexOf(cs[1..], name)
  }

  /** What is at a path, going down one name at a time. */
  function Lookup(cs: seq<Child>, p: seq<Bytes>): Option<Found>
    requires p != []
    decreases |p|
  {
    var i := IndexOf(cs, p[0]);
    if i == |cs| then None
    else if |p| == 1 then Some(KindOf(cs[i].node))
    else if cs[i].node.Dir? then Lookup(cs[i].node.children, p[1..])
    else None
  }

  /** Some component on the way is the metadata directory or ignored. */
  ghost predicate Hidden(path: seq<Bytes>, ignores: seq<Bytes> -> bool, p: seq<Bytes>) {
    exists k :: 0 <= k < |p| && (p[k] == META || ignores(path + p[..k + 1]))
  }

  /** What is at the path, unless it is hidden or a device. */
  ghost function Unhidden(cs: seq<Child>, path: seq<Bytes>, ignores: seq<Bytes> -> bool, p: seq<Bytes>): Option<Found>
    requires p != []
  {
    if Hidden(path, ignores, p) || Lookup(cs, p) == Some(FoundSpecial) then None else Lookup(cs, p)
  }

  lemma VisibleNil(path: seq<Bytes>, ignores: seq<Bytes> -> bool)
    ensures Visible([], path, ignores) == []
  {
  }

  lemma VisibleStep(cs: seq<Child>, path: seq<Bytes>, ignores: seq<Bytes> -> bool)
    requires cs != []
    ensures Visible(cs, path, ignores) ==
            (match VisibleChild(cs[0], path, ignores) case None => [] case Some(c) => [c]) +
            Visible(cs[1..], path, ignores)
  {
  }

  lemma {:induction false} VisibleNames(cs: seq<Child>, path: seq<Bytes>, ignores: seq<Bytes> -> bool, i: nat)
    returns (j: nat)
    requires i < |Visible(cs, path, ignores)|
    ensures j < |cs| && Visible(cs, path, ignores)[i].name == cs[j].name
    ensures VisibleChild(cs[j], path, ignores) == Some(Visible(cs, path, ignores)[i])
    decreases |cs|
  {
    var head := VisibleChild(cs[0], path, ignores);
    if head.Some? && i == 0 {
      j := 0;
    } else {
      var k := VisibleNames(cs[1..], path, ignores, if head.Some? then i - 1 else i);
      j := k + 1;
    }
  }

  lemma {:induction false} VisibleAscends(cs: seq<Child>, path: seq<Bytes>, ignores: seq<Bytes> -> bool)
    requires NamesAscend(cs)
    ensures NamesAscend(Visible(cs, path, ignores))
    decreases |cs|
  {
    hide Less;
    if cs != [] {
      VisibleAscends(cs[1..], path, ignores);
      var vis, rest := Visible(cs, path, ignores), Visible(cs[1..], path, ignores);
      forall i, j | 0 <= i < j < |vis|
        ensures Less(vis[i].name, vis[j].name)
      {
        if VisibleChild(cs[0], path, ignores).Some? {
          if i == 0 {
            var k := VisibleNames(cs[1..], path, ignores, j - 1);
            assert Less(cs[0].name, cs[k + 1].name);
          } else {
            assert Less(rest[i - 1].name, rest[j - 1].name);
          }
        }
      }
    }
  }

  lemma {:induction false} VisibleHas(cs: seq<Child>, path: seq<Bytes>, ignores: seq<Bytes> -> bool, j: nat)
    returns (i: nat)
    requires j < |cs| && VisibleChild(cs[j], path, ignores).Some?
    ensures i < |Visible(cs, path, ignores)|
    ensures Visible(cs, path, ignores)[i] == VisibleChild(cs[j], path, ignores).value
    decreases |cs|
  {
    hide VisibleChild;
    if j == 0 {
      i := 0;
    } else {
      var k := VisibleHas(cs[1..], path, ignores, j - 1);
      i := k + if VisibleChild(cs[0], path, ignores).Some? then 1 else 0;
    }
  }

  lemma NamesDiffer(cs: seq<Child>, i: nat, j: nat)
    requires NamesAscend(cs) && i < |cs| && j < |cs| && cs[i].name == cs[j].name
    ensures i == j
  {
    hide Less;
    LessTotal(cs[i].name, cs[i].name);
  }

  lemma FoundBy(cs: seq<Child>, name: Bytes, k: nat)
    requires k < |cs| && cs[k].name == name
    ensures IndexOf(cs, name) <= k
  {
  }

  lemma VisibleChildName(c: Child, path: seq<Bytes>, ignores: seq<Bytes> -> bool)
    ensures var v := VisibleChild(c, path, ignores);
            (v.None? <==> c.name == META || ignores(path + [c.name]) || c.node.Special?) &&
            (v.Some? ==> v.value.name == c.name && KindOf(v.value.node) == KindOf(c.node) &&
                         (c.node.Dir? ==> v.value.node.children ==
                                          Visible(c.node.children, path + [c.name], ignores)))
  {
    hide Visible;
  }

  /** The visible child of a name is the child of that name, made visible. */
  lemma VisibleIndex(cs: seq<Child>, path: seq<Bytes>, ignores: seq<Bytes> -> bool, name: Bytes)
    requires NamesAscend(cs)
    ensures var vis, j := Visible(cs, path, ignores), IndexOf(cs, name);
            var i := IndexOf(vis, name);
            if j < |cs| && VisibleChild(cs[j], path, ignores).Some? then
              i < |vis| && vis[i] == VisibleChild(cs[j], path, ignores).value
            else i == |vis|
  {
    hide Visible, VisibleChild, Less;
    var vis, j := Visible(cs, path, ignores), IndexOf(cs, name);
    var i := IndexOf(vis, name);
    if j < |cs| && VisibleChild(cs[j], path, ignores).Some? {
      var k := VisibleHas(cs, path, ignores, j);
      VisibleChildName(cs[j], path, ignores);
      FoundBy(vis, name, k);
    }
    if i < |vis| {
      var k := VisibleNames(cs, path, ignores, i);
      FoundBy(cs, name, k);
      NamesDiffer(cs, j, k);
    }
  }

  lemma PathStep(path: seq<Bytes>, p: seq<Bytes>, k: nat)
    requires k + 1 < |p|
    ensures path + [p[0]] + p[1..][..k + 1] == path + p[..k + 1 + 1]
  {
    assert p[..k + 2] == [p[0]] + p[1..][..k + 1];
  }

  /** A path is hidden by its first component or, from there on, by the rest. */
  lemma HiddenStep(path: seq<Bytes>, ignores: seq<Bytes> -> bool, p: seq<Bytes>)
    requires p != []
    ensures Hidden(path, ignores, p) <==>
            p[0] == META || ignores(path + [p[0]]) || Hidden(path + [p[0]], ignores, p[1..])
  {
    assert p[..1] == [p[0]];
    if Hidden(path, ignores, p) {
      var k :| 0 <= k < |p| && (p[k] == META || ignores(path + p[..k + 1]));
      if k > 0 {
        PathStep(path, p, k - 1);
        assert p[1..][k - 1] == p[k];
      }
    }
    if Hidden(path + [p[0]], ignores, p[1..]) {
      var k :| 0 <= k < |p[1..]| && (p[1..][k] == META || ignores(path + [p[0]] + p[1..][..k + 1]));
      PathStep(path, p, k);
      assert p[k + 1] == p[1..][k];
    }
  }

  lemma NeverHidden(path: seq<Bytes>, ignores: seq<Bytes> -> bool)
    ensures !Hidden(path, ignores, [])
  {
  }

  /** Path by path: what the visible part of a directory has there is what the directory has there,
      unless a component on the way is the metadata directory or ignored, or it is a device. */
  lemma {:induction false} VisibleLookup(cs: seq<Child>, path: seq<Bytes>, ignores: seq<Bytes> -> bool, p: seq<Bytes>)
    requires NamesAscend(cs) && (forall i :: 0 <= i < |cs| ==> WellFormed(cs[i].node)) && p != []
    ensures Lookup(Visible(cs, path, ignores), p) == Unhidden(cs, path, ignores, p)
    decreases |p|
  {
    hide Visible, VisibleChild, Hidden, Less, IndexOf;
    var name := p[0];
    var j := IndexOf(cs, name);
    VisibleIndex(cs, path, ignores, name);
    HiddenStep(path, ignores, p);
    if j < |cs| {
      VisibleChildName(cs[j], path, ignores);
      if |p| == 1 {
        NeverHidden(path + [name], ignores);
        assert p[1..] == [];
      } else if cs[j].node.Dir? {
        assert WellFormed(cs[j].node);
        VisibleLookup(cs[j].node.children, path + [name], ignores, p[1..]);
      }
    }
  }

  // ---------------------------------------------------------------------------------------------
  // Directories are what their paths say
  // ---------------------------------------------------------------------------------------------

  ghost predicate SamePaths(cs: seq<Child>, ds: seq<Child>) {
    forall p: seq<Bytes> | p != [] :: Lookup(cs, p) == Lookup(ds, p)
  }

  lemma Known(cs: seq<Child>, name: Bytes)
    ensures Lookup(cs, [name]).Some? <==> IndexOf(cs, name) < |cs|
  {
  }

  lemma SamePathsNames(cs: seq<Child>, ds: seq<Child>, name: Bytes)
    requires SamePaths(cs, ds)
    ensures IndexOf(cs, name) < |cs| <==> IndexOf(ds, name) < |ds|
  {
    hide Lookup;
    assert [name] != [];
    Known(cs, name);
    Known(ds, name);
  }

  lemma FirstNotLater(cs: seq<Child>, ds: seq<Child>)
    requires NamesAscend(cs) && NamesAscend(ds) && SamePaths(cs, ds) && cs != []
    ensures ds != [] && !Less(cs[0].name, ds[0].name)
  {
    hide SamePaths, Less;
    SamePathsNames(cs, ds, cs[0].name);
    var j := IndexOf(ds, cs[0].name);
    assert IndexOf(cs, cs[0].name) == 0;
    LessTotal(ds[0].name, cs[0].name);
    if j > 0 {
      assert Less(ds[0].name, ds[j].name);
    } else {
      LessTotal(cs[0].name, cs[0].name);
    }
  }

  lemma IndexInTail(cs: seq<Child>, name: Bytes)
    requires NamesAscend(cs) && cs != []
    ensures IndexOf(cs[1..], name) == if name == cs[0].name then |cs| - 1 else IndexOf(cs, name) - 1
  {
    hide Less;
    var rest := cs[1..];
    if name == cs[0].name {
      var i := IndexOf(rest, name);
      if i < |rest| {
        NamesDiffer(cs, 0, i + 1);
      }
    }
  }

  lemma LookupBelow(cs: seq<Child>, name: Bytes, p: seq<Bytes>)
    requires cs != [] && p != [] && cs[0].name == name
    ensures Lookup(cs, [name]) == Some(KindOf(cs[0].node))
    ensures cs[0].node.Dir? ==> Lookup(cs, [name] + p) == Lookup(cs[0].node.children, p)
  {
    assert IndexOf(cs, name) == 0;
    hide IndexOf, KindOf;
    assert ([name] + p)[1..] == p;
  }

  /** What is at a path below the first child, and at any path that does not begin there. */
  lemma LookupFirst(cs: seq<Child>, p: seq<Bytes>)
    requires NamesAscend(cs) && cs != [] && p != []
    ensures Lookup(cs[1..], p) == if p[0] == cs[0].name then None else Lookup(cs, p)
    ensures Lookup(cs, [cs[0].name]) == Some(KindOf(cs[0].node))
    ensures cs[0].node.Dir? ==> Lookup(cs, [cs[0].name] + p) == Lookup(cs[0].node.children, p)
  {
    IndexInTail(cs, p[0]);
    LookupBelow(cs, cs[0].name, p);
    hide IndexOf, KindOf, NamesAscend;
  }

  lemma SamePathsFirst(cs: seq<Child>, ds: seq<Child>)
    requires NamesAscend(cs) && NamesAscend(ds) && SamePaths(cs, ds) && cs != []
    ensures ds != [] && cs[0].name == ds[0].name && KindOf(cs[0].node) == KindOf(ds[0].node)
    ensures SamePaths(cs[1..], ds[1..])
    ensures cs[0].node.Dir? ==> ds[0].node.Dir? && SamePaths(cs[0].node.children, ds[0].node.children)
  {
    hide Lookup, Less;
    FirstNotLater(cs, ds);
    assert SamePaths(ds, cs);
    FirstNotLater(ds, cs);
    LessTotal(cs[0].name, ds[0].name);
    LookupFirst(cs, [cs[0].name]);
    LookupFirst(ds, [cs[0].name]);
    forall p: seq<Bytes> | p != []
      ensures Lookup(cs[1..], p) == Lookup(ds[1..], p)
      ensures cs[0].node.Dir? ==> Lookup(cs[0].node.children, p) == Lookup(ds[0].node.children, p)
    {
      LookupFirst(cs, p);
      LookupFirst(ds, p);
      assert [cs[0].name] + p != [];
    }
  }

  /** Two directories with the same things at the same paths are equal. */
  lemma {:induction false} SamePathsSame(cs: seq<Child>, ds: seq<Child>)
    requires WellFormed(Dir(cs)) && WellFormed(Dir(ds)) && SamePaths(cs, ds)
    ensures cs == ds
    decreases cs
  {
    hide SamePaths, Less;
    if cs == [] {
      if ds != [] {
        NothingThere(ds);
      }
    } else {
      SamePathsFirst(cs, ds);
      TailWellFormed(cs);
      TailWellFormed(ds);
      if cs[0].node.Dir? {
        SamePathsSame(cs[0].node.children, ds[0].node.children);
      }
      SamePathsSame(cs[1..], ds[1..]);
      assert cs == [cs[0]] + cs[1..] && ds == [ds[0]] + ds[1..];
    }
  }

  lemma NothingThere(ds: seq<Child>)
    requires NamesAscend(ds) && ds != []
    ensures !SamePaths([], ds)
  {
    hide Less;
    LookupFirst(ds, [ds[0].name]);
    assert Lookup([], [ds[0].name]) == None;
  }

  lemma TailWellFormed(cs: seq<Child>)
    requires WellFormed(Dir(cs)) && cs != []
    ensures WellFormed(Dir(cs[1..])) && WellFormed(cs[0].node)
  {
    var n, m := Dir(cs), Dir(cs[1..]);
    assert forall i :: 0 <= i < |m.children| ==> m.children[i] == n.children[i + 1];
    assert n.children[0] == cs[0];
  }

  /** What a file or link at a path is stored as. */
  function ContentOf(f: Option<Found>): Option<Bytes> {
    match f
    case Some(FoundFile(content, _)) => Some(content)
    case Some(FoundLink(target)) => Some(target)
    case _ => None
  }

  /** Every file and link found in a directory is among its objects. */
  lemma {:induction false} FoundIsStored(cs: seq<Child>, p: seq<Bytes>, hashOf: Bytes -> Hash)
    requires p != [] && ContentOf(Lookup(cs, p)).Some?
    ensures Format(BlobType, ContentOf(Lookup(cs, p)).value) in ObjectsOf(Dir(cs), hashOf)
    decreases |p|
  {
    hide Format, IndexOf;
    var i := IndexOf(cs, p[0]);
    ChildObjects(cs, hashOf, i);
    if |p| > 1 {
      FoundIsStored(cs[i].node.children, p[1..], hashOf);
    }
  }
}
