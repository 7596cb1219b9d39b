/** The staging area: a slice of entries kept sorted by path. */
module StagingIndex {
  import opened Common
  import opened ByteOrder

  datatype IndexEntry = IndexEntry(
    path: Bytes, hash: Hash, fingerprint: Hash, size: int, mtimeNs: int, mode: nat, flags: nat)

  function Paths(entries: seq<IndexEntry>): (ps: seq<Bytes>)
    ensures |ps| == |entries| && forall i :: 0 <= i < |ps| ==> ps[i] == entries[i].path
  {
    seq(|entries|, i requires 0 <= i < |entries| => entries[i].path)
  }

  ghost predicate Sorted(es: seq<IndexEntry>) {
    forall i, j :: 0 <= i < j < |es| ==> Less(es[i].path, es[j].path)
  }

  /** The entries and the map hold the same associations. */
  ghost predicate Agree(es: seq<IndexEntry>, m: map<Bytes, IndexEntry>) {
    (forall i :: 0 <= i < |es| ==> es[i].path in m && m[es[i].path] == es[i]) &&
    (forall p :: p in m ==> exists i :: 0 <= i < |es| && es[i].path == p)
  }

  /** Where the entry for a path is or belongs. */
  ghost predicate Position(es: seq<IndexEntry>, path: Bytes, i: nat) {
    i <= |es| &&
    (forall j :: 0 <= j < i ==> Less(es[j].path, path)) &&
    (forall j :: i <= j < |es| ==> !Less(es[j].path, path))
  }

  lemma PathsDiffer(es: seq<IndexEntry>, i: nat, j: nat)
    requires Sorted(es) && i < |es| && j < |es| && i != j
    ensures es[i].path != es[j].path
  {
    var lo, hi := if i < j then i else j, if i < j then j else i;
    assert Less(es[lo].path, es[hi].path);
    LessTotal(es[lo].path, es[hi].path);
  }

  lemma AbsentOrHere(es: seq<IndexEntry>, m: map<Bytes, IndexEntry>, path: Bytes, i: nat)
    requires Sorted(es) && Agree(es, m) && Position(es, path, i)
    ensures path in m <==> i < |es| && es[i].path == path
  {
    hide Less;
    LessTotal(path, path);
    if path in m {
      var j :| 0 <= j < |es| && es[j].path == path;
      assert i <= j;
      LessTotal(es[i].path, path);
    }
  }

  lemma Replaced(es: seq<IndexEntry>, m: map<Bytes, IndexEntry>, e: IndexEntry, i: nat)
    requires Sorted(es) && Agree(es, m) && i < |es| && es[i].path == e.path
    ensures Sorted(es[i := e]) && Agree(es[i := e], m[e.path := e])
  {
    hide Less;
    var fs, m' := es[i := e], m[e.path := e];
    forall j | 0 <= j < |fs|
      ensures fs[j].path in m' && m'[fs[j].path] == fs[j]
    {
      if i != j {
        PathsDiffer(es, i, j);
      }
    }
    forall p | p in m'
      ensures exists j :: 0 <= j < |fs| && fs[j].path == p
    {
      var j :| 0 <= j < |es| && es[j].path == p;
      assert fs[j].path == p;
    }
  }

  lemma InsertedSorted(es: seq<IndexEntry>, e: IndexEntry, i: nat)
    requires Sorted(es) && Position(es, e.path, i) && (i < |es| ==> es[i].path != e.path)
    ensures Sorted(es[..i] + [e] + es[i..])
  {
    hide Less;
    var fs := es[..i] + [e] + es[i..];
    forall k | i <= k < |es|
      ensures Less(e.path, es[k].path)
    {
      LessTotal(e.path, es[i].path);
      if k > i {
        LessTransitive(e.path, es[i].path, es[k].path);
      }
    }
    forall j, k | 0 <= j < k < |fs|
      ensures Less(fs[j].path, fs[k].path)
    {
      assert fs[j] == if j < i then es[j] else if j == i then e else es[j - 1];
      assert fs[k] == if k < i then es[k] else if k == i then e else es[k - 1];
    }
  }

  lemma InsertedAgrees(es: seq<IndexEntry>, m: map<Bytes, IndexEntry>, e: IndexEntry, i: nat)
    requires Agree(es, m) && i <= |es| && e.path !in m
    ensures Agree(es[..i] + [e] + es[i..], m[e.path := e])
  {
    var fs, m' := es[..i] + [e] + es[i..], m[e.path := e];
    forall j | 0 <= j < |fs|
      ensures fs[j].path in m' && m'[fs[j].path] == fs[j]
    {
      assert fs[j] == if j < i then es[j] else if j == i then e else es[j - 1];
    }
    forall p | p in m'
      ensures exists j :: 0 <= j < |fs| && fs[j].path == p
    {
      if p == e.path {
        assert fs[i].path == p;
      } else {
        var j :| 0 <= j < |es| && es[j].path == p;
        assert fs[if j < i then j else j + 1].path == p;
      }
    }
  }

  lemma Deleted(es: seq<IndexEntry>, m: map<Bytes, IndexEntry>, i: nat)
    requires Sorted(es) && Agree(es, m) && i < |es|
    ensures var fs := es[..i] + es[i + 1..]; Sorted(fs) && Agree(fs, m - {es[i].path})
  {
    hide Less, Agree;
    var fs := es[..i] + es[i + 1..];
    assert forall j :: 0 <= j < |fs| ==> fs[j] == es[if j < i then j else j + 1];
    DeletedAgrees(es, m, i);
  }

  lemma DeletedAgrees(es: seq<IndexEntry>, m: map<Bytes, IndexEntry>, i: nat)
    requires Sorted(es) && Agree(es, m) && i < |es|
    ensures Agree(es[..i] + es[i + 1..], m - {es[i].path})
  {
    hide Less;
    var fs, path := es[..i] + es[i + 1..], es[i].path;
    forall j | 0 <= j < |fs|
      ensures fs[j].path in m && fs[j].path != path && m[fs[j].path] == fs[j]
    {
      var j' := if j < i then j else j + 1;
      assert fs[j] == es[j'];
      PathsDiffer(es, i, j');
    }
    hide Sorted;
    forall p | p in m && p != path
      ensures exists j :: 0 <= j < |fs| && fs[j].path == p
    {
      var j :| 0 <= j < |es| && es[j].path == p;
      assert fs[if j < i then j else j - 1].path == p;
    }
  }

  /** Inserting or replacing, on the list alone. */
  function Put(es: seq<IndexEntry>, e: IndexEntry): seq<IndexEntry> {
    if es == [] then [e]
    else if es[0].path == e.path then [e] + es[1..]
    else if Less(e.path, es[0].path) then [e] + es
    else [es[0]] + Put(es[1..], e)
  }

  function Drop(es: seq<IndexEntry>, path: Bytes): seq<IndexEntry> {
    if es == [] then []
    else if es[0].path == path then es[1..]
    else [es[0]] + Drop(es[1..], path)
  }

  lemma PositionTail(es: seq<IndexEntry>, path: Bytes, i: nat)
    requires Position(es, path, i) && i > 0
    ensures es != [] && Less(es[0].path, path) && es[0].path != path && !Less(path, es[0].path)
    ensures Position(es[1..], path, i - 1)
  {
    hide Less;
    LessTotal(es[0].path, path);
    assert forall j :: 0 <= j < |es| - 1 ==> es[1..][j] == es[j + 1];
  }

  lemma PutBehind(es: seq<IndexEntry>, e: IndexEntry)
    requires es != [] && es[0].path != e.path && !Less(e.path, es[0].path)
    ensures Put(es, e) == [es[0]] + Put(es[1..], e)
  {
  }

  lemma {:induction false} PutReplaces(es: seq<IndexEntry>, e: IndexEntry, i: nat)
    requires Position(es, e.path, i) && i < |es| && es[i].path == e.path
    ensures Put(es, e) == es[i := e]
    decreases i
  {
    hide Less;
    if i > 0 {
      PositionTail(es, e.path, i);
      hide Position;
      PutBehind(es, e);
      PutReplaces(es[1..], e, i - 1);
      hide Put;
      assert [es[0]] + es[1..][i - 1 := e] == es[i := e];
    }
  }

  lemma {:induction false} PutInserts(es: seq<IndexEntry>, e: IndexEntry, i: nat)
    requires Position(es, e.path, i) && (i < |es| ==> es[i].path != e.path)
    ensures Put(es, e) == es[..i] + [e] + es[i..]
    decreases i
  {
    hide Less;
    if i > 0 {
      PositionTail(es, e.path, i);
      hide Position;
      PutBehind(es, e);
      PutInserts(es[1..], e, i - 1);
      hide Put;
      InsertBehind(es, e, i);
    } else if es != [] {
      LessTotal(es[0].path, e.path);
    }
  }

  lemma InsertBehind(es: seq<IndexEntry>, e: IndexEntry, i: nat)
    requires 0 < i <= |es|
    ensures [es[0]] + (es[1..][..i - 1] + [e] + es[1..][i - 1..]) == es[..i] + [e] + es[i..]
  {
    assert es[1..][..i - 1] == es[1..i] && es[1..][i - 1..] == es[i..];
    assert [es[0]] + es[1..i] == es[..i];
  }

  lemma {:induction false} DropAt(es: seq<IndexEntry>, path: Bytes, i: nat)
    requires i <= |es| && (i < |es| ==> es[i].path == path) && forall j :: 0 <= j < i ==> es[j].path != path
    ensures Drop(es, path) == if i < |es| then es[..i] + es[i + 1..] else es
    decreases i
  {
    if i > 0 {
      assert forall j :: 0 <= j < |es| - 1 ==> es[1..][j] == es[j + 1];
      DropAt(es[1..], path, i - 1);
      assert es == [es[0]] + es[1..];
    }
  }

  lemma DropFound(es: seq<IndexEntry>, m: map<Bytes, IndexEntry>, path: Bytes, i: nat)
    requires Sorted(es) && Agree(es, m) && Position(es, path, i)
    ensures Drop(es, path) == if i < |es| && es[i].path == path then es[..i] + es[i + 1..] else es
  {
    hide Less, Drop;
    AbsentOrHere(es, m, path, i);
    forall j | 0 <= j < i
      ensures es[j].path != path
    {
      LessTotal(es[j].path, path);
    }
    DropAt(es, path, if i < |es| && es[i].path == path then i else |es|);
  }

  /** In a sorted list every path has its position. */
  lemma {:induction false} PositionExists(es: seq<IndexEntry>, path: Bytes) returns (i: nat)
    requires Sorted(es)
    ensures Position(es, path, i)
  {
    hide Less;
    if es == [] {
      i := 0;
    } else if Less(es[0].path, path) {
      var rest := es[1..];
      var k := PositionExists(rest, path);
      i := k + 1;
      assert forall j :: 0 < j < |es| ==> es[j] == rest[j - 1];
    } else {
      i := 0;
      forall j | 0 <= j < |es|
        ensures !Less(es[j].path, path)
      {
        if 0 < j && Less(es[j].path, path) {
          LessTransitive(es[0].path, es[j].path, path);
        }
      }
    }
  }

  /** Inserting or replacing keeps the order and updates the map. */
  lemma PutAgrees(es: seq<IndexEntry>, m: map<Bytes, IndexEntry>, e: IndexEntry)
    requires Sorted(es) && Agree(es, m)
    ensures Sorted(Put(es, e)) && Agree(Put(es, e), m[e.path := e])
  {
    hide Sorted, Agree, Put;
    var i := PositionExists(es, e.path);
    AbsentOrHere(es, m, e.path, i);
    if i < |es| && es[i].path == e.path {
      PutReplaces(es, e, i);
      Replaced(es, m, e, i);
    } else {
      PutInserts(es, e, i);
      InsertedSorted(es, e, i);
      InsertedAgrees(es, m, e, i);
    }
  }

  /** Deleting keeps the order and removes the path from the map. */
  lemma DropAgrees(es: seq<IndexEntry>, m: map<Bytes, IndexEntry>, path: Bytes)
    requires Sorted(es) && Agree(es, m)
    ensures Sorted(Drop(es, path)) && Agree(Drop(es, path), m - {path})
  {
    hide Sorted, Agree, Drop;
    var i := PositionExists(es, path);
    AbsentOrHere(es, m, path, i);
    DropFound(es, m, path, i);
    if i < |es| && es[i].path == path {
      Deleted(es, m, i);
    } else {
      assert m - {path} == m;
    }
  }

  class Index {
    var entries: seq<IndexEntry>
    ghost var contents: map<Bytes, IndexEntry>

    ghost predicate Valid()
      reads this
    {
      Sorted(entries) && Agree(entries, contents)
    }

    constructor ()
      ensures Valid() && contents == map[] && entries == []
    {
      entries, contents := [], map[];
    }

    method Locate(path: Bytes) returns (i: nat)
      requires Valid()
      ensures Position(entries, path, i)
    {
      ghost var ps := Paths(entries);
      assert StrictlyAscending(ps);
      StrictIsAscending(ps);
      i := Search(Paths(entries), path);
      assert forall j :: 0 <= j < |entries| ==> ps[j] == entries[j].path;
    }

    method Find(path: Bytes) returns (r: Option<IndexEntry>)
      requires Valid()
      ensures r == if path in contents then Some(contents[path]) else None
    {
      var i := Locate(path);
      AbsentOrHere(entries, contents, path, i);
      if i < |entries| && entries[i].path == path {
        return Some(entries[i]);
      }
      r := None;
    }

    method Add(entry: IndexEntry)
      requires Valid()
      modifies this
      ensures Valid() && contents == old(contents)[entry.path := entry]
      ensures |entries| == |old(entries)| + if entry.path in old(contents) then 0 else 1
      ensures entries == Put(old(entries), entry)
    {
      hide Put;
      var i := Locate(entry.path);
      AbsentOrHere(entries, contents, entry.path, i);
      if i < |entries| && entries[i].path == entry.path {
        PutReplaces(entries, entry, i);
        Replaced(entries, contents, entry, i);
        entries := entries[i := entry];
      } else {
        PutInserts(entries, entry, i);
        InsertedSorted(entries, entry, i);
        InsertedAgrees(entries, contents, entry, i);
        entries := entries[..i] + [entry] + entries[i..];
      }
      contents := contents[entry.path := entry];
    }

    method Remove(path: Bytes)
      requires Valid()
      modifies this
      ensures Valid() && contents == old(contents) - {path}
      ensures |entries| == |old(entries)| - if path in old(contents) then 1 else 0
      ensures entries == Drop(old(entries), path)
    {
      hide Drop;
      var i := Locate(path);
      DropFound(entries, contents, path, i);
      AbsentOrHere(entries, contents, path, i);
      if i < |entries| && entries[i].path == path {
        Deleted(entries, contents, i);
        entries := entries[..i] + entries[i + 1..];
      }
      contents := contents - {path};
    }
  }
}
