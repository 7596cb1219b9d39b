/** The bytes of a pack file: a 12-byte header, a table of 45-byte entries, the compressed objects
    one after another, and a checksum of the table. */
module PackFormat {
  import opened Common
  import opened Codec

  datatype PackEntry = PackEntry(hash: Hash, kind: Byte, offset: U32, compressedLen: U32, uncompressedLen: U32)

  const MAGIC: Bytes := [77, 80, 65, 75]
  const VERSION := 1
  const HEADER := 12
  const ENTRY := 45

  function EncodeEntry(e: PackEntry): (b: Bytes)
    ensures |b| == ENTRY
  {
    e.hash + [e.kind] + PutBE(e.offset, 4) + PutBE(e.compressedLen, 4) + PutBE(e.uncompressedLen, 4)
  }

  function GetU32(b: Bytes): U32
    requires |b| == 4
  {
    PutGet(b);
    Widths();
    GetBE(b)
  }

  function DecodeEntry(b: Bytes): PackEntry
    requires |b| == ENTRY
  {
    PackEntry(b[..32], b[32], GetU32(b[33..37]), GetU32(b[37..41]), GetU32(b[41..45]))
  }

  lemma EntryRoundTrip(e: PackEntry)
    ensures DecodeEntry(EncodeEntry(e)) == e
  {
    hide PutBE, GetBE;
    var b := EncodeEntry(e);
    assert b[..32] == e.hash;
    assert b[33..37] == PutBE(e.offset, 4);
    assert b[37..41] == PutBE(e.compressedLen, 4);
    assert b == (e.hash + [e.kind] + PutBE(e.offset, 4) + PutBE(e.compressedLen, 4)) + PutBE(e.uncompressedLen, 4);
    SuffixAt(e.hash + [e.kind] + PutBE(e.offset, 4) + PutBE(e.compressedLen, 4), PutBE(e.uncompressedLen, 4));
    Widths();
    GetPut(e.offset, 4);
    GetPut(e.compressedLen, 4);
    GetPut(e.uncompressedLen, 4);
  }

  function Table(entries: seq<PackEntry>): (b: Bytes)
    ensures |b| == ENTRY * |entries|
  {
    if entries == [] then [] else Table(entries[..|entries| - 1]) + EncodeEntry(entries[|entries| - 1])
  }

  lemma TableAppend(entries: seq<PackEntry>, e: PackEntry)
    ensures Table(entries + [e]) == Table(entries) + EncodeEntry(e)
  {
    assert (entries + [e])[..|entries|] == entries;
  }

  lemma {:induction false} TableAt(entries: seq<PackEntry>, i: nat)
    requires i < |entries|
    ensures Table(entries)[ENTRY * i..ENTRY * i + ENTRY] == EncodeEntry(entries[i])
  {
    hide EncodeEntry;
    var n := |entries| - 1;
    if i < n {
      TableAt(entries[..n], i);
      assert Table(entries)[..ENTRY * n] == Table(entries[..n]);
      assert Table(entries)[ENTRY * i..ENTRY * i + ENTRY] == Table(entries[..n])[ENTRY * i..ENTRY * i + ENTRY];
    }
  }

  /** The header as it is when the file is created, with no count yet, and as it is patched. */
  function Prefix(count: nat): (b: Bytes)
    ensures |b| == HEADER
  {
    MAGIC + PutBE(VERSION, 4) + PutBE(count, 4)
  }

  function FileBytes(entries: seq<PackEntry>, body: Bytes, crc: Bytes -> U32): Bytes {
    Prefix(|entries| % P32) + Table(entries) + body + PutBE(crc(Table(entries)), 4)
  }

  /** The entries table as it is written, entry by entry. */
  method EncodeTable(entries: seq<PackEntry>) returns (b: Bytes)
    ensures b == Table(entries)
  {
    hide EncodeEntry;
    b := [];
    for i := 0 to |entries|
      invariant b == Table(entries[..i])
    {
      assert entries[..i + 1] == entries[..i] + [entries[i]];
      TableAppend(entries[..i], entries[i]);
      b := b + EncodeEntry(entries[i]);
    }
    assert entries[..|entries|] == entries;
  }

  /** Writing the count over bytes 8 to 12 of a file that starts with the placeholder header. */
  lemma PatchCount(rest: Bytes, count: nat)
    ensures var file := Prefix(0) + rest;
            file[..8] + PutBE(count, 4) + file[12..] == Prefix(count) + rest
  {
    hide PutBE;
    var file := Prefix(0) + rest;
    assert file[12..] == rest;
    assert file[..8] == MAGIC + PutBE(VERSION, 4);
  }

  /** Appends table, body and checksum to the placeholder header, then goes back and fills in the count. */
  method FinishFile(file: Bytes, entries: seq<PackEntry>, body: Bytes, crc: Bytes -> U32) returns (file': Bytes)
    requires file == Prefix(0)
    ensures file' == FileBytes(entries, body, crc)
  {
    hide Prefix, Table, PutBE;
    var entriesBuf := EncodeTable(entries);
    var rest := entriesBuf + body + PutBE(crc(entriesBuf), 4);
    var whole := file + rest;
    PatchCount(rest, |entries| % P32);
    file' := whole[..8] + PutBE(|entries| % P32, 4) + whole[12..];
  }

  /** An opened pack: the file, its table, and where the compressed objects start. */
  datatype PackReader = PackReader(file: Bytes, entries: seq<PackEntry>, bodyOffset: nat)

  function At(file: Bytes, i: nat): (b: Bytes)
    requires HEADER + ENTRY * i + ENTRY <= |file|
    ensures |b| == ENTRY
  {
    file[HEADER + ENTRY * i..HEADER + ENTRY * i + ENTRY]
  }

  /** What OpenPack accepts: magic, version and a complete table. */
  predicate Openable(file: Bytes) {
    |file| >= HEADER && file[..4] == MAGIC && GetU32(file[4..8]) == VERSION &&
    HEADER + ENTRY * GetU32(file[8..12]) <= |file|
  }

  /** MPAK, version 1, a number, that many entries' bytes and the rest. */
  function Assembled(n: U32, table: Bytes, rest: Bytes): Bytes {
    [77, 80, 65, 75] + [0, 0, 0, 1] + PutBE(n, 4) + table + rest
  }

  lemma AssembledOpens(n: U32, table: Bytes, rest: Bytes)
    requires |table| == ENTRY * n
    ensures Openable(Assembled(n, table, rest))
  {
    hide PutBE, GetBE;
    VersionIs();
    Widths();
    GetPut(n, 4);
    FourParts(MAGIC, [0, 0, 0, 1], PutBE(n, 4), table + rest);
    assert Assembled(n, table, rest) == MAGIC + [0, 0, 0, 1] + PutBE(n, 4) + (table + rest);
  }

  lemma FourParts(x: Bytes, y: Bytes, z: Bytes, rest: Bytes)
    requires |x| == |y| == |z| == 4
    ensures var file := x + y + z + rest; file[..4] == x && file[4..8] == y && file[8..12] == z
  {
  }

  /** A file opens exactly if it starts with MPAK, version 1, a number and that many entries' bytes. */
  lemma OpenableExactly(file: Bytes)
    ensures Openable(file) <==>
            exists n: U32, table: Bytes, rest: Bytes :: |table| == ENTRY * n && file == Assembled(n, table, rest)
  {
    if Openable(file) {
      hide PutBE, GetBE;
      VersionIs();
      var n := GetU32(file[8..12]);
      PutGet(file[4..8]);
      PutGet(file[8..12]);
      var table, rest := file[HEADER..HEADER + ENTRY * n], file[HEADER + ENTRY * n..];
      assert file == file[..4] + file[4..8] + file[8..12] + table + rest;
      assert file == Assembled(n, table, rest);
    }
    hide Openable, Assembled;
    if n: U32, table: Bytes, rest: Bytes :| |table| == ENTRY * n && file == Assembled(n, table, rest) {
      AssembledOpens(n, table, rest);
    }
  }

  lemma VersionIs()
    ensures GetBE([0, 0, 0, 1]) == VERSION && PutBE(VERSION, 4) == [0, 0, 0, 1]
  {
    VersionBytes();
    Widths();
    GetPut(VERSION, 4);
  }

  lemma VersionBytes()
    ensures PutBE(VERSION, 4) == [0, 0, 0, 1]
  {
    assert PutBE(0, 1) == [0] && PutBE(0, 2) == [0, 0] && PutBE(0, 3) == [0, 0, 0];
  }

  function Opened(file: Bytes): PackReader
    requires Openable(file)
  {
    var n := GetU32(file[8..12]);
    PackReader(file, seq(n, i requires 0 <= i < n => DecodeEntry(At(file, i))), HEADER + ENTRY * n)
  }

  /** Where the fields of a table entry lie. */
  lemma EntryLayout(e: PackEntry)
    ensures var b := EncodeEntry(e);
            b[..32] == e.hash && b[32] == e.kind && b[33..37] == PutBE(e.offset, 4) &&
            b[37..41] == PutBE(e.compressedLen, 4) && b[41..] == PutBE(e.uncompressedLen, 4)
  {
    hide PutBE;
    assert EncodeEntry(e) ==
           e.hash + ([e.kind] + (PutBE(e.offset, 4) + (PutBE(e.compressedLen, 4) + PutBE(e.uncompressedLen, 4))));
  }

  /** A pack says MPAK, version 1 and how many entries follow, and ends in the checksum of their table. */
  lemma FileLayout(entries: seq<PackEntry>, body: Bytes, crc: Bytes -> U32)
    ensures var file := FileBytes(entries, body, crc);
            var bodyAt := HEADER + ENTRY * |entries|;
            |file| == bodyAt + |body| + 4 && file[..4] == [77, 80, 65, 75] && file[4..8] == [0, 0, 0, 1] &&
            file[8..12] == PutBE(|entries| % P32, 4) && file[bodyAt..bodyAt + |body|] == body &&
            file[bodyAt + |body|..] == PutBE(crc(file[HEADER..bodyAt]), 4) &&
            forall i :: 0 <= i < |entries| ==> At(file, i) == EncodeEntry(entries[i])
  {
    VersionBytes();
    hide PutBE, Table, EncodeEntry;
    var file, table := FileBytes(entries, body, crc), Table(entries);
    assert file == MAGIC + PutBE(VERSION, 4) + PutBE(|entries| % P32, 4) + (table + (body + PutBE(crc(table), 4)));
    assert file[HEADER..HEADER + ENTRY * |entries|] == table;
    forall i | 0 <= i < |entries|
      ensures At(file, i) == EncodeEntry(entries[i])
    {
      TableAt(entries, i);
      SubSlice(file, HEADER, ENTRY * |entries|, ENTRY * i, ENTRY * i + ENTRY);
    }
  }

  /** The entries of an opened file are those its table spells out. */
  lemma OpenedLayout(file: Bytes, i: nat)
    requires Openable(file) && i < |Opened(file).entries|
    ensures EncodeEntry(Opened(file).entries[i]) == file[HEADER + ENTRY * i..HEADER + ENTRY * i + ENTRY]
    ensures |Opened(file).entries| == GetBE(file[8..12])
    ensures Opened(file).bodyOffset == HEADER + ENTRY * |Opened(file).entries|
  {
    hide PutBE, GetBE;
    var b := At(file, i);
    PutGet(b[33..37]);
    PutGet(b[37..41]);
    PutGet(b[41..45]);
    assert b == b[..32] + [b[32]] + b[33..37] + b[37..41] + b[41..45];
  }

  method OpenPack(file: Bytes) returns (r: Result<PackReader>)
    ensures r == if Openable(file) then Ok(Opened(file)) else Err
  {
    hide DecodeEntry, GetU32, At;
    if |file| < 4 || file[..4] != MAGIC {
      return Err;
    }
    if |file| < 8 || GetU32(file[4..8]) != VERSION || |file| < 12 {
      return Err;
    }
    var count := GetU32(file[8..12]);
    var entries: seq<PackEntry> := [];
    var pos := HEADER;
    while |entries| < count
      invariant |entries| <= count && pos == HEADER + ENTRY * |entries| <= |file|
      invariant forall i :: 0 <= i < |entries| ==> entries[i] == DecodeEntry(At(file, i))
    {
      if pos + ENTRY > |file| {
        return Err;
      }
      entries := entries + [DecodeEntry(At(file, |entries|))];
      pos := pos + ENTRY;
    }
    assert entries == Opened(file).entries;
    return Ok(PackReader(file, entries, pos));
  }

  /** Opening a written pack gives back its table, as long as the entries can be counted in 32 bits. */
  lemma OpensWritten(entries: seq<PackEntry>, body: Bytes, crc: Bytes -> U32)
    requires |entries| < P32
    ensures var file := FileBytes(entries, body, crc);
            Openable(file) && Opened(file) == PackReader(file, entries, HEADER + ENTRY * |entries|)
  {
    hide PutBE, GetBE, EncodeEntry, DecodeEntry, Table;
    var file := FileBytes(entries, body, crc);
    PrefixReads(|entries|);
    assert file[..HEADER] == Prefix(|entries|);
    assert file[..4] == file[..HEADER][..4];
    assert file[4..8] == file[..HEADER][4..8];
    assert file[8..12] == file[..HEADER][8..12];
    assert Openable(file);
    forall i | 0 <= i < |entries|
      ensures DecodeEntry(At(file, i)) == entries[i]
    {
      TableAt(entries, i);
      assert file[HEADER..HEADER + ENTRY * |entries|] == Table(entries);
      assert At(file, i) == Table(entries)[ENTRY * i..ENTRY * i + ENTRY];
      EntryRoundTrip(entries[i]);
    }
    assert Opened(file).entries == entries;
  }

  lemma PrefixReads(count: nat)
    requires count < P32
    ensures var p := Prefix(count);
            p[..4] == MAGIC && GetU32(p[4..8]) == VERSION && GetU32(p[8..12]) == count
  {
    hide PutBE, GetBE;
    var p := Prefix(count);
    assert p[4..8] == PutBE(VERSION, 4);
    assert p[8..12] == PutBE(count, 4);
    Widths();
    GetPut(VERSION, 4);
    GetPut(count, 4);
  }
}
