/** Writing objects into a pack, and reading them back. */
module PackFile {
  import opened Common
  import opened Codec
  import opened ByteOrder
  import opened ObjectFormat
  import opened DirTree
  import opened TreeStore
  import opened PackFormat

  /** SHA-256, zstd and CRC-32, as functions. */
  datatype Codecs = Codecs(hashOf: Bytes -> Hash, compress: Bytes -> Result<Bytes>,
                           decompress: Bytes -> Result<Bytes>, crc: Bytes -> U32)

  function TypeByte(t: ObjectType): Byte {
    match t case BlobType => 0 case TreeType => 1 case CommitType => 2 case TagType => 3
  }

  // ---------------------------------------------------------------------------------------------
  // What a writer has accumulated
  // ---------------------------------------------------------------------------------------------

  /** What AddObject accepts: a readable header and no compression error. */
  predicate Packable(data: Bytes, c: Codecs) {
    ParseHeader(data).Ok? && c.compress(data).Ok?
  }

  ghost predicate AllPackable(added: seq<Bytes>, c: Codecs) {
    forall i :: 0 <= i < |added| ==> Packable(added[i], c)
  }

  function Compressed(data: Bytes, c: Codecs): Bytes {
    match c.compress(data) case Ok(z) => z case Err => []
  }

  /** The body section: the compressed objects one after another. */
  function Body(added: seq<Bytes>, c: Codecs): Bytes {
    if added == [] then [] else Body(added[..|added| - 1], c) + Compressed(added[|added| - 1], c)
  }

  /** The entry of an object added when the body was `start` bytes long, in uint32 arithmetic. */
  function EntryAtOffset(data: Bytes, start: nat, c: Codecs): PackEntry
    requires Packable(data, c)
  {
    var header := ParseHeader(data).value;
    PackEntry(c.hashOf(data), TypeByte(header.kind), start % P32, |Compressed(data, c)| % P32,
              (|data| - header.offset) % P32)
  }

  /** The entry of a formatted object says its type, as a number, and the size of its content. */
  lemma EntryDescribes(kind: ObjectType, content: Bytes, start: nat, c: Codecs)
    requires Packable(Format(kind, content), c)
    ensures var e := EntryAtOffset(Format(kind, content), start, c);
            e.hash == c.hashOf(Format(kind, content)) && e.uncompressedLen == |content| % P32 &&
            e.kind == (if kind.BlobType? then 0 else if kind.TreeType? then 1 else if kind.CommitType? then 2 else 3)
  {
    hide Format, ParseHeader, Compressed;
    HeaderRoundTrip(kind, content);
    var data, offset := Format(kind, content), ParseHeader(Format(kind, content)).value.offset;
    assert |data[offset..]| == |data| - offset;
  }

  ghost predicate Describes(entries: seq<PackEntry>, added: seq<Bytes>, c: Codecs)
    requires AllPackable(added, c)
  {
    |entries| == |added| &&
    forall i :: 0 <= i < |added| ==> entries[i] == EntryAtOffset(added[i], |Body(added[..i], c)|, c)
  }

  lemma {:induction false} BodySplit(added: seq<Bytes>, c: Codecs, i: nat)
    requires i < |added|
    ensures var b, start, z := Body(added, c), |Body(added[..i], c)|, Compressed(added[i], c);
            start + |z| <= |b| && b[start..start + |z|] == z
    decreases |added|
  {
    hide Compressed;
    var n := |added| - 1;
    if i < n {
      BodySplit(added[..n], c, i);
      assert added[..n][..i] == added[..i];
      var whole, init := Body(added, c), Body(added[..n], c);
      var start, z := |Body(added[..i], c)|, Compressed(added[i], c);
      assert whole[..|init|] == init;
      assert whole[start..start + |z|] == init[start..start + |z|];
    }
  }

  lemma DescribesAppend(entries: seq<PackEntry>, added: seq<Bytes>, data: Bytes, c: Codecs)
    requires AllPackable(added, c) && Describes(entries, added, c) && Packable(data, c)
    ensures AllPackable(added + [data], c)
    ensures Describes(entries + [EntryAtOffset(data, |Body(added, c)|, c)], added + [data], c)
    ensures Body(added + [data], c) == Body(added, c) + Compressed(data, c)
  {
    hide ParseHeader, Packable, Compressed;
    var all := added + [data];
    assert all[..|added|] == added;
    assert forall i :: 0 <= i < |added| ==> all[..i] == added[..i];
  }

  class PackWriter {
    const c: Codecs
    var file: Bytes
    var entries: seq<PackEntry>
    var bodyBuf: Bytes
    var offset: U32
    ghost var added: seq<Bytes>

    ghost predicate Valid()
      reads this
    {
      AllPackable(added, c) && Describes(entries, added, c) && bodyBuf == Body(added, c) &&
      offset == |bodyBuf| % P32 && file == Prefix(0)
    }

    constructor (c: Codecs)
      ensures Valid() && added == [] && this.c == c
    {
      this.c := c;
      file, entries, bodyBuf, offset, added := Prefix(0), [], [], 0, [];
    }

    method AddObject(data: Bytes) returns (r: Result<Hash>)
      requires Valid()
      modifies this
      ensures Valid()
      ensures r == if Packable(data, c) then Ok(c.hashOf(data)) else Err
      ensures added == if Packable(data, c) then old(added) + [data] else old(added)
    {
      hide ParseHeader, Body, Prefix, Describes;
      var h := c.hashOf(data);
      var header := ParseHeader(data);
      if header.Err? {
        return Err;
      }
      var z := c.compress(data);
      if z.Err? {
        return Err;
      }
      var entry := PackEntry(h, TypeByte(header.value.kind), offset, |z.value| % P32,
                             (|data| - header.value.offset) % P32);
      SumModulo(|bodyBuf|, |z.value|, P32);
      DescribesAppend(entries, added, data, c);
      entries := entries + [entry];
      bodyBuf := bodyBuf + z.value;
      offset := (offset + |z.value|) % P32;
      added := added + [data];
      return Ok(h);
    }

    /** The finished file: entries sorted by hash, each still with its own range, then the body. */
    method Close()
      requires Valid()
      modifies this
      ensures added == old(added) && bodyBuf == Body(added, c)
      ensures multiset(entries) == multiset(old(entries)) && |entries| == |added|
      ensures AscendingBy(entries, HashOfEntry)
      ensures file == FileBytes(entries, bodyBuf, c.crc)
    {
      hide AscendingBy, Body, Prefix, FileBytes, HashOfEntry;
      var sorted := SortBy(entries, HashOfEntry);
      file := FinishFile(file, sorted, bodyBuf, c.crc);
      entries := sorted;
    }
  }

  function HashOfEntry(e: PackEntry): Bytes { e.hash }

  // ---------------------------------------------------------------------------------------------
  // Reading
  // ---------------------------------------------------------------------------------------------

  function Hashes(entries: seq<PackEntry>): (hs: seq<Bytes>)
    ensures |hs| == |entries| && forall i :: 0 <= i < |hs| ==> hs[i] == entries[i].hash
  {
    seq(|entries|, i requires 0 <= i < |entries| => HashOfEntry(entries[i]))
  }

  /** The object an entry points at, if its range lies in the file and its hash is the one promised. */
  function ReadEntry(r: PackReader, e: PackEntry, c: Codecs): Result<Bytes> {
    var start := r.bodyOffset + e.offset;
    if e.compressedLen > 0 && start + e.compressedLen > |r.file| then Err
    else
      var z := if e.compressedLen > 0 then r.file[start..start + e.compressedLen] else [];
      match c.decompress(z)
      case Err => Err
      case Ok(data) => if c.hashOf(data) == e.hash then Ok(data) else Err
  }

  /** Linear scan for the first entry with a hash. */
  function Scanned(r: PackReader, entries: seq<PackEntry>, h: Hash, c: Codecs): Result<Bytes> {
    if entries == [] then Err
    else if entries[0].hash == h then ReadEntry(r, entries[0], c)
    else Scanned(r, entries[1..], h, c)
  }

  lemma {:induction false} ScannedFirst(r: PackReader, entries: seq<PackEntry>, h: Hash, c: Codecs, k: nat)
    requires k <= |entries| && forall i :: 0 <= i < k ==> entries[i].hash != h
    requires k < |entries| ==> entries[k].hash == h
    ensures Scanned(r, entries, h, c) == if k < |entries| then ReadEntry(r, entries[k], c) else Err
    decreases k
  {
    hide ReadEntry;
    if k > 0 {
      ScannedFirst(r, entries[1..], h, c, k - 1);
    }
  }

  lemma ScannedNone(r: PackReader, entries: seq<PackEntry>, h: Hash, c: Codecs)
    requires forall i :: 0 <= i < |entries| ==> entries[i].hash != h
    ensures Scanned(r, entries, h, c) == Err
  {
    ScannedFirst(r, entries, h, c, |entries|);
  }

  /** Whatever the file, what is returned has the hash asked for; on a sorted table the binary search
      finds what a linear scan finds. */
  method ReadObject(r: PackReader, h: Hash, c: Codecs) returns (res: Result<Bytes>)
    ensures res.Ok? ==> c.hashOf(res.value) == h
    ensures Ascending(Hashes(r.entries)) ==> res == Scanned(r, r.entries, h, c)
  {
    hide Less, Ascending, Scanned;
    var idx := Search(Hashes(r.entries), h);
    if Ascending(Hashes(r.entries)) {
      FoundFirst(r, h, c, idx);
    }
    if idx >= |r.entries| || r.entries[idx].hash != h {
      return Err;
    }
    res := ReadEntry(r, r.entries[idx], c);
  }

  lemma FoundFirst(r: PackReader, h: Hash, c: Codecs, k: nat)
    requires k <= |r.entries|
    requires forall j :: 0 <= j < k ==> Less(Hashes(r.entries)[j], h)
    requires forall j :: k <= j < |r.entries| ==> !Less(Hashes(r.entries)[j], h)
    requires Ascending(Hashes(r.entries))
    ensures Scanned(r, r.entries, h, c) ==
            if k < |r.entries| && r.entries[k].hash == h then ReadEntry(r, r.entries[k], c) else Err
  {
    hide Less, Scanned, ReadEntry;
    var hs := Hashes(r.entries);
    forall j | 0 <= j < k
      ensures r.entries[j].hash != h
    {
      LessTotal(hs[j], h);
    }
    if k < |r.entries| && r.entries[k].hash == h {
      ScannedFirst(r, r.entries, h, c, k);
    } else {
      forall j | k <= j < |r.entries|
        ensures r.entries[j].hash != h
      {
        LessTotal(hs[k], h);
      }
      ScannedNone(r, r.entries, h, c);
    }
  }

  // ---------------------------------------------------------------------------------------------
  // A written pack returns what was added
  // ---------------------------------------------------------------------------------------------

  /** Counts, starts and lengths fit the 32-bit fields. */
  ghost predicate Fits(added: seq<Bytes>, c: Codecs) {
    |added| < P32 &&
    forall i :: 0 <= i < |added| ==> |Body(added[..i], c)| < P32 && |Compressed(added[i], c)| < P32
  }

  ghost predicate Invertible(added: seq<Bytes>, c: Codecs) {
    forall i :: 0 <= i < |added| ==> c.decompress(Compressed(added[i], c)) == Ok(added[i])
  }

  ghost predicate CollisionFree(added: seq<Bytes>, c: Codecs) {
    forall i, j :: 0 <= i < |added| && 0 <= j < |added| && c.hashOf(added[i]) == c.hashOf(added[j]) ==>
      added[i] == added[j]
  }

  /** The reader of a closed pack. */
  function Written(sorted: seq<PackEntry>, added: seq<Bytes>, c: Codecs): PackReader {
    PackReader(FileBytes(sorted, Body(added, c), c.crc), sorted, HEADER + ENTRY * |sorted|)
  }

  lemma EntryReadsBack(sorted: seq<PackEntry>, added: seq<Bytes>, c: Codecs, j: nat)
    requires j < |added| && AllPackable(added, c) && Fits(added, c) && Invertible(added, c)
    ensures ReadEntry(Written(sorted, added, c), EntryAtOffset(added[j], |Body(added[..j], c)|, c), c) == Ok(added[j])
  {
    hide Body, Compressed, Table, Prefix, PutBE, ParseHeader;
    var r := Written(sorted, added, c);
    var b, start, z := Body(added, c), |Body(added[..j], c)|, Compressed(added[j], c);
    BodySplit(added, c, j);
    assert r.file[r.bodyOffset..r.bodyOffset + |b|] == b;
    assert r.file[r.bodyOffset + start..r.bodyOffset + start + |z|] == b[start..start + |z|];
    assert z == [] || |z| > 0;
  }

  /** Whatever the sizes, an entry leads to the bytes at its start and of its length modulo 2^32; it
      reads back exactly if those decompress to the object. */
  lemma EntryReadsExactly(sorted: seq<PackEntry>, added: seq<Bytes>, c: Codecs, j: nat)
    requires j < |added| && AllPackable(added, c)
    ensures var b, start, n := Body(added, c), |Body(added[..j], c)| % P32, |Compressed(added[j], c)| % P32;
            var e := EntryAtOffset(added[j], |Body(added[..j], c)|, c);
            start + n <= |b| &&
            (ReadEntry(Written(sorted, added, c), e, c) == Ok(added[j]) <==>
             c.decompress(b[start..start + n]) == Ok(added[j]))
  {
    hide Body, Compressed, Table, Prefix, PutBE, ParseHeader;
    var r := Written(sorted, added, c);
    var b, start, n := Body(added, c), |Body(added[..j], c)| % P32, |Compressed(added[j], c)| % P32;
    BodySplit(added, c, j);
    assert r.file[r.bodyOffset..r.bodyOffset + |b|] == b;
    assert r.file[r.bodyOffset + start..r.bodyOffset + start + n] == b[start..start + n];
    assert n == 0 ==> b[start..start + n] == [];
  }

  lemma EntryOrigin(sorted: seq<PackEntry>, entries: seq<PackEntry>, added: seq<Bytes>, c: Codecs, k: nat)
    returns (j: nat)
    requires AllPackable(added, c) && Describes(entries, added, c)
    requires multiset(sorted) == multiset(entries) && k < |sorted|
    ensures j < |added| && sorted[k] == EntryAtOffset(added[j], |Body(added[..j], c)|, c)
  {
    hide ParseHeader, Body, Compressed;
    assert sorted[k] in multiset(entries);
    j :| 0 <= j < |entries| && entries[j] == sorted[k];
  }

  /** Scanning the written table for any hash: exactly the bytes added under it, or nothing. */
  lemma WrittenIsRead(sorted: seq<PackEntry>, entries: seq<PackEntry>, added: seq<Bytes>, c: Codecs, h: Hash)
    requires AllPackable(added, c) && Describes(entries, added, c) && multiset(sorted) == multiset(entries)
    requires Fits(added, c) && Invertible(added, c) && CollisionFree(added, c)
    ensures var res := Scanned(Written(sorted, added, c), sorted, h, c);
            (forall i :: 0 <= i < |added| && c.hashOf(added[i]) == h ==> res == Ok(added[i])) &&
            ((forall i :: 0 <= i < |added| ==> c.hashOf(added[i]) != h) ==> res == Err)
  {
    hide ParseHeader, Body, Compressed, Scanned, ReadEntry, Written, Fits, Invertible;
    var k := FirstWith(sorted, h);
    var r := Written(sorted, added, c);
    ScannedFirst(r, sorted, h, c, k);
    if k < |sorted| {
      var j := EntryOrigin(sorted, entries, added, c, k);
      EntryReadsBack(sorted, added, c, j);
      assert c.hashOf(added[j]) == h;
    } else {
      forall i | 0 <= i < |added|
        ensures c.hashOf(added[i]) != h
      {
        assert entries[i] in multiset(sorted);
        assert entries[i] in sorted;
      }
    }
  }

  function FirstWith(entries: seq<PackEntry>, h: Hash): (k: nat)
    ensures k <= |entries| && forall i :: 0 <= i < k ==> entries[i].hash != h
    ensures k < |entries| ==> entries[k].hash == h
  {
    if entries == [] || entries[0].hash == h then 0 else 1 + FirstWith(entries[1..], h)
  }

  /** The accepted ones among the objects offered, in order. */
  function Accepted(items: seq<Bytes>, c: Codecs): (r: seq<Bytes>)
    ensures AllPackable(r, c) && forall d :: d in r <==> d in items && Packable(d, c)
  {
    if items == [] then []
    else
      var last := items[|items| - 1];
      Accepted(items[..|items| - 1], c) + (if Packable(last, c) then [last] else [])
  }

  /** The file of a closed pack: the entries describe what was added and are sorted by hash. */
  ghost predicate PackOf(file: Bytes, added: seq<Bytes>, c: Codecs, sorted: seq<PackEntry>, entries: seq<PackEntry>)
    requires AllPackable(added, c)
  {
    Describes(entries, added, c) && multiset(sorted) == multiset(entries) && |sorted| == |added| &&
    AscendingBy(sorted, HashOfEntry) && file == FileBytes(sorted, Body(added, c), c.crc)
  }

  method WritePack(items: seq<Bytes>, c: Codecs) returns (file: Bytes)
    ensures exists sorted, entries :: PackOf(file, Accepted(items, c), c, sorted, entries)
  {
    hide ParseHeader, Body, Prefix, FileBytes, AscendingBy;
    var w := new PackWriter(c);
    for i := 0 to |items|
      invariant w.Valid() && w.c == c && w.added == Accepted(items[..i], c)
    {
      assert items[..i + 1][..i] == items[..i];
      var _ := w.AddObject(items[i]);
    }
    assert items[..|items|] == items;
    ghost var entries := w.entries;
    w.Close();
    file := w.file;
    assert PackOf(file, Accepted(items, c), c, w.entries, entries);
  }

  /** Adding objects in any order, with repeats and rejects, closing, opening, and reading any hash:
      exactly the bytes added under that hash, or an error if there are none. */
  method WriteThenRead(items: seq<Bytes>, c: Codecs, h: Hash) returns (res: Result<Bytes>)
    requires var added := Accepted(items, c); Fits(added, c) && Invertible(added, c) && CollisionFree(added, c)
    ensures forall d :: d in items && Packable(d, c) && c.hashOf(d) == h ==> res == Ok(d)
    ensures (forall d :: d in items && Packable(d, c) ==> c.hashOf(d) != h) ==> res == Err
  {
    hide ParseHeader, Body, FileBytes, Openable, Opened, Scanned, Packable, EntryAtOffset;
    var file := WritePack(items, c);
    ghost var added := Accepted(items, c);
    ghost var sorted, entries :| PackOf(file, added, c, sorted, entries);
    OpensWritten(sorted, Body(added, c), c.crc);
    var reading := OpenPack(file);
    WrittenIsRead(sorted, entries, added, c, h);
    res := ReadObject(reading.value, h, c);
  }

  // ---------------------------------------------------------------------------------------------
  // Unpacking into the object store
  // ---------------------------------------------------------------------------------------------

  /** What unpacking any file does to the store: it only adds objects, each under its own hash. */
  ghost predicate OnlyAddsVerified(before: Objects, after: Objects, c: Codecs) {
    Extends(before, after) && forall h :: h in after && h !in before ==> c.hashOf(after[h]) == h
  }

  /** All objects of a pack were stored, and nothing else was. */
  ghost predicate StoredAll(before: Objects, after: Objects, r: PackReader, n: nat, c: Codecs)
    requires n <= |r.entries|
  {
    (forall h :: h in after <==> h in before || h in Hashes(r.entries[..n])) &&
    (forall h :: h in after && h !in before ==> Scanned(r, r.entries, h, c) == Ok(after[h]))
  }

  ghost predicate AllFound(r: PackReader, n: nat, c: Codecs)
    requires n <= |r.entries|
  {
    forall k :: 0 <= k < n ==> Scanned(r, r.entries, r.entries[k].hash, c).Ok?
  }

  lemma NoneStored(before: Objects, c: Codecs)
    ensures OnlyAddsVerified(before, before, c) && forall r :: StoredAll(before, before, r, 0, c)
  {
  }

  lemma StoredNext(before: Objects, objects: Objects, data: Bytes, r: PackReader, i: nat, c: Codecs)
    requires i < |r.entries| && StoredAll(before, objects, r, i, c)
    requires Scanned(r, r.entries, r.entries[i].hash, c) == Ok(data) && c.hashOf(data) == r.entries[i].hash
    ensures var h := c.hashOf(data);
            StoredAll(before, if h in objects then objects else objects[h := data], r, i + 1, c)
  {
    hide Scanned;
    assert r.entries[..i + 1] == r.entries[..i] + [r.entries[i]];
    assert Hashes(r.entries[..i + 1]) == Hashes(r.entries[..i]) + [r.entries[i].hash];
  }

  method UnpackObjects(file: Bytes, c: Codecs, store: ObjectStore) returns (res: Result<seq<Hash>>)
    requires store.hashOf == c.hashOf
    modifies store
    ensures OnlyAddsVerified(old(store.objects), store.objects, c)
    ensures res.Ok? ==> Openable(file) && res.value == Hashes(Opened(file).entries)
    ensures Openable(file) && Ascending(Hashes(Opened(file).entries)) ==>
              var r := Opened(file);
              (res.Ok? <==> AllFound(r, |r.entries|, c)) &&
              (res.Ok? ==> StoredAll(old(store.objects), store.objects, r, |r.entries|, c))
  {
    hide Openable, Opened, Ascending, Scanned, FileBytes, StoredAll;
    var reading := OpenPack(file);
    NoneStored(store.objects, c);
    if reading.Err? {
      return Err;
    }
    var r := reading.value;
    var hashes: seq<Hash> := [];
    for i := 0 to |r.entries|
      invariant OnlyAddsVerified(old(store.objects), store.objects, c)
      invariant hashes == Hashes(r.entries[..i])
      invariant Ascending(Hashes(r.entries)) ==> StoredAll(old(store.objects), store.objects, r, i, c)
      invariant Ascending(Hashes(r.entries)) ==> AllFound(r, i, c)
    {
      var data := ReadObject(r, r.entries[i].hash, c);
      if data.Err? {
        return Err;
      }
      ghost var was := store.objects;
      var h := store.Write(data.value, {});
      if Ascending(Hashes(r.entries)) {
        StoredNext(old(store.objects), was, data.value, r, i, c);
      }
      assert r.entries[..i + 1] == r.entries[..i] + [r.entries[i]];
      hashes := hashes + [h];
    }
    assert r.entries[..|r.entries|] == r.entries;
    return Ok(hashes);
  }

  /** A pack carries its objects from one store to another: unpacking what was written stores every
      accepted object under its hash, leaves what was there alone, and stores nothing else. */
  method WriteThenUnpack(items: seq<Bytes>, c: Codecs, store: ObjectStore) returns (res: Result<seq<Hash>>)
    requires store.hashOf == c.hashOf
    requires var added := Accepted(items, c); Fits(added, c) && Invertible(added, c) && CollisionFree(added, c)
    modifies store
    ensures res.Ok? && Extends(old(store.objects), store.objects)
    ensures forall d :: d in items && Packable(d, c) ==>
              c.hashOf(d) in store.objects &&
              (c.hashOf(d) !in old(store.objects) ==> store.objects[c.hashOf(d)] == d)
    ensures forall h :: h in store.objects && h !in old(store.objects) ==>
              store.objects[h] in items && Packable(store.objects[h], c)
  {
    hide ParseHeader, Body, FileBytes, Openable, Opened, Scanned, Packable, EntryAtOffset, Less;
    var file := WritePack(items, c);
    ghost var added := Accepted(items, c);
    ghost var sorted, entries :| PackOf(file, added, c, sorted, entries);
    ghost var r := Written(sorted, added, c);
    OpensWritten(sorted, Body(added, c), c.crc);
    forall h: Hash
      ensures h in Hashes(sorted) <==> exists i :: 0 <= i < |added| && c.hashOf(added[i]) == h
      ensures forall i :: 0 <= i < |added| && c.hashOf(added[i]) == h ==> Scanned(r, sorted, h, c) == Ok(added[i])
    {
      SortedHashes(sorted, entries, added, c, h);
      WrittenIsRead(sorted, entries, added, c, h);
    }
    res := UnpackObjects(file, c, store);
    assert sorted[..|sorted|] == sorted;
    Delivered(sorted, entries, items, c, old(store.objects), store.objects);
  }

  lemma Delivered(sorted: seq<PackEntry>, entries: seq<PackEntry>, items: seq<Bytes>, c: Codecs, before: Objects,
                  after: Objects)
    requires var added := Accepted(items, c);
             Describes(entries, added, c) && multiset(sorted) == multiset(entries) &&
             Fits(added, c) && Invertible(added, c) && CollisionFree(added, c) &&
             StoredAll(before, after, Written(sorted, added, c), |sorted|, c)
    ensures forall d :: d in items && Packable(d, c) ==>
              c.hashOf(d) in after && (c.hashOf(d) !in before ==> after[c.hashOf(d)] == d)
  {
    hide ParseHeader, Body, FileBytes, Scanned, Packable, EntryAtOffset, Fits, Invertible;
    var added := Accepted(items, c);
    assert sorted[..|sorted|] == sorted;
    forall d | d in items && Packable(d, c)
      ensures c.hashOf(d) in after && (c.hashOf(d) !in before ==> after[c.hashOf(d)] == d)
    {
      assert d in added;
      SortedHashes(sorted, entries, added, c, c.hashOf(d));
      WrittenIsRead(sorted, entries, added, c, c.hashOf(d));
    }
  }

  lemma SortedHashes(sorted: seq<PackEntry>, entries: seq<PackEntry>, added: seq<Bytes>, c: Codecs, h: Hash)
    requires AllPackable(added, c) && Describes(entries, added, c) && multiset(sorted) == multiset(entries)
    ensures h in Hashes(sorted) <==> exists i :: 0 <= i < |added| && c.hashOf(added[i]) == h
  {
    hide ParseHeader, Body, Compressed;
    if h in Hashes(sorted) {
      var k :| 0 <= k < |sorted| && Hashes(sorted)[k] == h;
      var j := EntryOrigin(sorted, entries, added, c, k);
      assert c.hashOf(added[j]) == h;
    }
    if i :| 0 <= i < |added| && c.hashOf(added[i]) == h {
      assert entries[i] in multiset(sorted);
      var k :| 0 <= k < |sorted| && sorted[k] == entries[i];
      assert Hashes(sorted)[k] == h;
    }
  }
}
