/** The index file: saving the staging area and loading it back, whole or cut short. */
module IndexFile {
  import opened Common
  import opened Codec
  import opened ByteOrder
  import opened StagingIndex

  const MAGIC: Bytes := [77, 83, 89, 78]

  /** int64 to uint64 and back, two's complement. */
  function ToU64(x: int): nat { x % P64 }

  function FromU64(u: nat): int { if u < P64 / 2 then u else u - P64 }

  /** An entry whose fields fit the machine types that hold them. */
  predicate InRange(e: IndexEntry) {
    -(P64 / 2) <= e.size < P64 / 2 && -(P64 / 2) <= e.mtimeNs < P64 / 2 && e.mode < P32 && e.flags < P16
  }

  function EncodeTail(e: IndexEntry): (b: Bytes)
    ensures |b| == 22
  {
    PutBE(ToU64(e.size), 8) + PutBE(ToU64(e.mtimeNs), 8) + PutBE(e.mode, 4) + PutBE(e.flags, 2)
  }

  /** One entry: the path length is written in two bytes whatever the path. */
  function EncodeEntry(e: IndexEntry): (b: Bytes)
    ensures |b| == |e.path| + 88
  {
    PutBE(|e.path|, 2) + e.path + e.hash + e.fingerprint + EncodeTail(e)
  }

  function EncodeEntries(es: seq<IndexEntry>): Bytes {
    if es == [] then [] else EncodeEntry(es[0]) + EncodeEntries(es[1..])
  }

  /** What `Save` writes; the checksum is any function of the entry bytes. */
  function FileBytes(es: seq<IndexEntry>, checksum: Bytes -> nat): Bytes {
    var body := EncodeEntries(es);
    MAGIC + PutBE(2, 2) + PutBE(|es|, 4) + body + PutBE(checksum(body), 4)
  }

  datatype Parsed = Parsed(entry: IndexEntry, size: nat)

  /** The entry at the front of the bytes, unless they end inside it. Version 1 has no fingerprint. */
  function ParseEntry(d: Bytes, version: nat): (r: Option<Parsed>)
    ensures r.Some? ==> 0 < r.value.size <= |d|
  {
    if |d| < 2 then None
    else
      var n := GetBE(d[0..2]);
      var f := if version >= 2 then HASH_SIZE else 0;
      var total := 2 + n + HASH_SIZE + f + 22;
      if |d| < total then None
      else
        var at := 2 + n + HASH_SIZE + f;
        Some(Parsed(IndexEntry(
          d[2..2 + n],
          d[2 + n..2 + n + HASH_SIZE],
          if version >= 2 then d[2 + n + HASH_SIZE..at] else ZERO,
          FromU64(GetBE(d[at..at + 8])),
          FromU64(GetBE(d[at + 8..at + 16])),
          GetBE(d[at + 16..at + 20]),
          GetBE(d[at + 20..at + 22])), total))
  }

  /** Up to count entries, stopping where the bytes end. */
  function ParseEntries(d: Bytes, version: nat, count: nat): seq<IndexEntry>
    decreases count
  {
    if count == 0 then []
    else match ParseEntry(d, version)
      case None => []
      case Some(p) => [p.entry] + ParseEntries(d[p.size..], version, count - 1)
  }

  /** The entries `Load` finds, before it sorts them; a short or foreign file counts as empty. */
  function FileEntries(data: Bytes): seq<IndexEntry> {
    if |data| < 10 || data[0..4] != MAGIC then []
    else
      var version := GetBE(data[4..6]);
      if version != 1 && version != 2 then [] else ParseEntries(data[10..], version, GetBE(data[6..10]))
  }

  lemma SignedRoundTrip(x: int)
    requires -(P64 / 2) <= x < P64 / 2
    ensures ToU64(x) < P64 && FromU64(ToU64(x)) == x
  {
  }

  lemma TailRoundTrip(e: IndexEntry)
    requires InRange(e)
    ensures var t := EncodeTail(e);
            FromU64(GetBE(t[0..8])) == e.size && FromU64(GetBE(t[8..16])) == e.mtimeNs &&
            GetBE(t[16..20]) == e.mode && GetBE(t[20..22]) == e.flags
  {
    hide PutBE, GetBE, ToU64, FromU64;
    var t := EncodeTail(e);
    Widths();
    SignedRoundTrip(e.size);
    SignedRoundTrip(e.mtimeNs);
    GetPut(ToU64(e.size), 8);
    GetPut(ToU64(e.mtimeNs), 8);
    GetPut(e.mode, 4);
    GetPut(e.flags, 2);
    assert t[0..8] == PutBE(ToU64(e.size), 8);
    assert t[8..16] == PutBE(ToU64(e.mtimeNs), 8);
    assert t[16..20] == PutBE(e.mode, 4);
    SuffixAt(PutBE(ToU64(e.size), 8) + PutBE(ToU64(e.mtimeNs), 8) + PutBE(e.mode, 4), PutBE(e.flags, 2));
  }

  lemma EntryFields(e: IndexEntry)
    ensures var enc, n := EncodeEntry(e), |e.path|;
            enc[0..2] == PutBE(n, 2) && enc[2..2 + n] == e.path && enc[2 + n..34 + n] == e.hash &&
            enc[34 + n..66 + n] == e.fingerprint && enc[66 + n..] == EncodeTail(e)
  {
    hide PutBE, EncodeTail;
    var len := PutBE(|e.path|, 2);
    assert EncodeEntry(e) == len + (e.path + (e.hash + (e.fingerprint + EncodeTail(e))));
  }

  lemma VersionBytes()
    ensures PutBE(2, 2) == [0, 2]
  {
    assert PutBE(0, 1) == [0];
  }

  /** A file says MSYN, version 2 and how many entries follow, and ends in the checksum of their bytes. */
  lemma FileLayout(es: seq<IndexEntry>, checksum: Bytes -> nat)
    ensures var file := FileBytes(es, checksum);
            file[..4] == [77, 83, 89, 78] && file[4..6] == [0, 2] && file[6..10] == PutBE(|es|, 4) &&
            file[10..|file| - 4] == EncodeEntries(es) && file[|file| - 4..] == PutBE(checksum(EncodeEntries(es)), 4)
  {
    VersionBytes();
    hide PutBE, EncodeEntries;
    var body := EncodeEntries(es);
    assert FileBytes(es, checksum) == MAGIC + (PutBE(2, 2) + (PutBE(|es|, 4) + (body + PutBE(checksum(body), 4))));
  }

  /** Where the fields lie that end an entry. */
  lemma TailLayout(e: IndexEntry)
    ensures var t := EncodeTail(e);
            t[..8] == PutBE(ToU64(e.size), 8) && t[8..16] == PutBE(ToU64(e.mtimeNs), 8) &&
            t[16..20] == PutBE(e.mode, 4) && t[20..] == PutBE(e.flags, 2)
  {
    hide PutBE, ToU64;
    assert EncodeTail(e) ==
           PutBE(ToU64(e.size), 8) + (PutBE(ToU64(e.mtimeNs), 8) + (PutBE(e.mode, 4) + PutBE(e.flags, 2)));
  }

  lemma TakeSlice(s: Bytes, u: nat, lo: nat, hi: nat)
    requires lo <= hi <= u <= |s|
    ensures s[..u][lo..hi] == s[lo..hi]
  {
  }

  /** An entry is read back from the front of any bytes that hold all of it. */
  lemma EntryParses(e: IndexEntry, d: Bytes)
    requires InRange(e) && |e.path| < P16 && |EncodeEntry(e)| <= |d| && d[..|EncodeEntry(e)|] == EncodeEntry(e)
    ensures ParseEntry(d, 2) == Some(Parsed(e, |EncodeEntry(e)|))
  {
    hide PutBE, GetBE, EncodeTail, FromU64, ToU64, EncodeEntry;
    var enc, n := EncodeEntry(e), |e.path|;
    var at := 66 + n;
    EntryFields(e);
    Widths();
    GetPut(n, 2);
    TakeSlice(d, |enc|, 0, 2);
    TakeSlice(d, |enc|, 2, 2 + n);
    TakeSlice(d, |enc|, 2 + n, 34 + n);
    TakeSlice(d, |enc|, 34 + n, at);
    var t := EncodeTail(e);
    TailRoundTrip(e);
    TakeSlice(d, |enc|, at, at + 8);
    TakeSlice(d, |enc|, at + 8, at + 16);
    TakeSlice(d, |enc|, at + 16, at + 20);
    TakeSlice(d, |enc|, at + 20, at + 22);
    assert enc[at..at + 8] == t[0..8];
    assert enc[at + 8..at + 16] == t[8..16];
    assert enc[at + 16..at + 20] == t[16..20];
    assert enc[at + 20..at + 22] == t[20..22];
  }

  /** Any cut through the bytes leaves the entry readable exactly if it leaves all of it. */
  lemma EntryRoundTrip(e: IndexEntry, tail: Bytes, u: nat)
    requires InRange(e) && |e.path| < P16 && u <= |EncodeEntry(e) + tail|
    ensures ParseEntry((EncodeEntry(e) + tail)[..u], 2) ==
            if u < |EncodeEntry(e)| then None else Some(Parsed(e, |EncodeEntry(e)|))
  {
    hide PutBE, GetBE, EncodeTail, FromU64, ToU64, EncodeEntry;
    var enc := EncodeEntry(e);
    var d := (enc + tail)[..u];
    if u >= |enc| {
      assert d[..|enc|] == enc;
      EntryParses(e, d);
    } else if u >= 2 {
      assert d[0..2] == enc[0..2];
      EntryFields(e);
      Widths();
      GetPut(|e.path|, 2);
    }
  }

  ghost predicate AllInRange(es: seq<IndexEntry>) {
    forall i :: 0 <= i < |es| ==> InRange(es[i])
  }

  ghost predicate ShortPaths(es: seq<IndexEntry>) {
    forall i :: 0 <= i < |es| ==> |es[i].path| < P16
  }

  /** How many whole entries fit into the first u bytes. */
  ghost function WholeEntries(es: seq<IndexEntry>, u: nat): (k: nat)
    ensures k <= |es|
  {
    if es == [] || u < |EncodeEntry(es[0])| then 0
    else 1 + WholeEntries(es[1..], u - |EncodeEntry(es[0])|)
  }

  /** Cutting the entry bytes anywhere leaves exactly the entries that are still whole. */
  lemma {:induction false} ParseTruncated(es: seq<IndexEntry>, tail: Bytes, u: nat)
    requires AllInRange(es) && ShortPaths(es) && u <= |EncodeEntries(es) + tail|
    ensures ParseEntries((EncodeEntries(es) + tail)[..u], 2, |es|) == es[..WholeEntries(es, u)]
    decreases |es|
  {
    hide EncodeEntry, ParseEntry;
    if es != [] {
      var enc, rest := EncodeEntry(es[0]), EncodeEntries(es[1..]) + tail;
      assert EncodeEntries(es) + tail == enc + rest;
      var d := (enc + rest)[..u];
      EntryRoundTrip(es[0], rest, u);
      if u >= |enc| {
        assert d[|enc|..] == rest[..u - |enc|];
        ParseTruncated(es[1..], tail, u - |enc|);
        assert es[..WholeEntries(es, u)] == [es[0]] + es[1..][..WholeEntries(es[1..], u - |enc|)];
      }
    }
  }

  lemma {:induction false} WholeAtEnd(es: seq<IndexEntry>, u: nat)
    ensures WholeEntries(es, u) == |es| <==> u >= |EncodeEntries(es)|
    decreases |es|
  {
    if es != [] && u >= |EncodeEntry(es[0])| {
      WholeAtEnd(es[1..], u - |EncodeEntry(es[0])|);
    }
  }

  /** Loading the first t bytes of a saved file gives the entries that lie wholly within them. */
  lemma LoadTruncated(es: seq<IndexEntry>, checksum: Bytes -> nat, t: nat)
    requires AllInRange(es) && ShortPaths(es) && |es| < P32 && t <= |FileBytes(es, checksum)|
    ensures FileEntries(FileBytes(es, checksum)[..t]) == es[..WholeEntries(es, if t < 10 then 0 else t - 10)]
    ensures FileEntries(FileBytes(es, checksum)[..t]) == es <==> es == [] || t >= 10 + |EncodeEntries(es)|
  {
    hide EncodeEntry, ParseEntry, PutBE, GetBE;
    var body := EncodeEntries(es);
    var tail := PutBE(checksum(body), 4);
    var file := FileBytes(es, checksum);
    var d := file[..t];
    WholeAtEnd(es, if t < 10 then 0 else t - 10);
    NoWholeEntry(es);
    if t >= 10 {
      Widths();
      GetPut(2, 2);
      GetPut(|es|, 4);
      assert file[0..4] == MAGIC && file[4..6] == PutBE(2, 2) && file[6..10] == PutBE(|es|, 4);
      TakeSlice(file, t, 0, 4);
      TakeSlice(file, t, 4, 6);
      TakeSlice(file, t, 6, 10);
      assert file[10..] == body + tail;
      assert d[10..] == (body + tail)[..t - 10];
      ParseTruncated(es, tail, t - 10);
    }
  }

  lemma NoWholeEntry(es: seq<IndexEntry>)
    ensures WholeEntries(es, 0) == 0
    ensures es != [] ==> EncodeEntries(es) != []
  {
    if es != [] {
      assert |EncodeEntries(es)| >= |EncodeEntry(es[0])|;
    }
  }

  lemma ParsedPathShort(d: Bytes, version: nat)
    ensures ParseEntry(d, version).Some? ==> |ParseEntry(d, version).value.entry.path| < P16
  {
    hide GetBE;
    if |d| >= 2 {
      Widths();
      PutGet(d[0..2]);
    }
  }

  lemma {:induction false} ParsedPathsShort(d: Bytes, version: nat, count: nat)
    ensures ShortPaths(ParseEntries(d, version, count)) && |ParseEntries(d, version, count)| <= count
    decreases count
  {
    hide ParseEntry;
    if count > 0 {
      match ParseEntry(d, version)
      case None =>
      case Some(p) =>
        ParsedPathShort(d, version);
        ParsedPathsShort(d[p.size..], version, count - 1);
    }
  }

  /** A saved index loads unchanged exactly when its paths and its length fit their fields. */
  lemma LoadsUnchanged(es: seq<IndexEntry>, checksum: Bytes -> nat)
    requires AllInRange(es)
    ensures FileEntries(FileBytes(es, checksum)) == es <==> ShortPaths(es) && |es| < P32
  {
    var file := FileBytes(es, checksum);
    if ShortPaths(es) && |es| < P32 {
      LoadTruncated(es, checksum, |file|);
      assert file[..|file|] == file;
    }
    if FileEntries(file) == es && es != [] {
      Widths();
      ParsedPathsShort(file[10..], GetBE(file[4..6]), GetBE(file[6..10]));
      PutGet(file[6..10]);
    }
  }

  // ---------------------------------------------------------------------------------------------
  // Files of the first version
  // ---------------------------------------------------------------------------------------------

  /** An entry as version 1 wrote it: without a fingerprint. */
  ghost function EncodeOld(e: IndexEntry): (b: Bytes)
    ensures |b| == |e.path| + 56
  {
    PutBE(|e.path|, 2) + e.path + e.hash + EncodeTail(e)
  }

  ghost function EncodeAllOld(es: seq<IndexEntry>): Bytes {
    if es == [] then [] else EncodeOld(es[0]) + EncodeAllOld(es[1..])
  }

  ghost function Unfingerprinted(es: seq<IndexEntry>): (r: seq<IndexEntry>)
    ensures |r| == |es| && forall i :: 0 <= i < |r| ==> r[i] == es[i].(fingerprint := ZERO)
  {
    seq(|es|, i requires 0 <= i < |es| => es[i].(fingerprint := ZERO))
  }

  /** Whatever follows it, an old entry is read back with a zero fingerprint. */
  lemma OldEntryRoundTrip(e: IndexEntry, rest: Bytes)
    requires InRange(e) && |e.path| < P16
    ensures ParseEntry(EncodeOld(e) + rest, 1) == Some(Parsed(e.(fingerprint := ZERO), |EncodeOld(e)|))
  {
    hide PutBE, GetBE, EncodeTail, FromU64, ToU64;
    var d, n, t := EncodeOld(e) + rest, |e.path|, EncodeTail(e);
    var at := 34 + n;
    assert d == PutBE(n, 2) + (e.path + (e.hash + (t + rest)));
    Widths();
    GetPut(n, 2);
    assert d[0..2] == PutBE(n, 2) && d[2..2 + n] == e.path && d[2 + n..at] == e.hash;
    assert d[at..at + 22] == t;
    TailRoundTrip(e);
    SubSlice(d, at, 22, 0, 8);
    SubSlice(d, at, 22, 8, 16);
    SubSlice(d, at, 22, 16, 20);
    SubSlice(d, at, 22, 20, 22);
  }

  lemma {:induction false} OldEntriesParse(es: seq<IndexEntry>, rest: Bytes)
    requires AllInRange(es) && ShortPaths(es)
    ensures ParseEntries(EncodeAllOld(es) + rest, 1, |es|) == Unfingerprinted(es)
    decreases |es|
  {
    hide EncodeOld, ParseEntry;
    if es != [] {
      var enc, more := EncodeOld(es[0]), EncodeAllOld(es[1..]) + rest;
      assert EncodeAllOld(es) + rest == enc + more;
      OldEntryRoundTrip(es[0], more);
      assert (enc + more)[|enc|..] == more;
      OldEntriesParse(es[1..], rest);
      assert Unfingerprinted(es) == [es[0].(fingerprint := ZERO)] + Unfingerprinted(es[1..]);
    }
  }

  /** What does not start with MSYN, or is shorter than a header, counts as empty. */
  lemma ForeignIsEmpty(data: Bytes)
    requires |data| < 10 || data[..4] != [77, 83, 89, 78]
    ensures FileEntries(data) == []
  {
    assert |data| >= 10 ==> data[0..4] == data[..4];
  }

  lemma OldHeader(version: nat, count: nat, body: Bytes, rest: Bytes)
    requires version < P16 && count < P32
    ensures var file := MAGIC + PutBE(version, 2) + PutBE(count, 4) + body + rest;
            |file| >= 10 && file[0..4] == MAGIC && GetBE(file[4..6]) == version && GetBE(file[6..10]) == count &&
            file[10..] == body + rest
  {
    hide PutBE, GetBE;
    var file := MAGIC + PutBE(version, 2) + PutBE(count, 4) + body + rest;
    Widths();
    GetPut(version, 2);
    GetPut(count, 4);
    assert file == MAGIC + (PutBE(version, 2) + (PutBE(count, 4) + (body + rest)));
    assert file[4..6] == PutBE(version, 2) && file[6..10] == PutBE(count, 4);
  }

  /** A file of version 1 loads with its entries, fingerprints zero; one of an unknown version counts as
      empty. */
  lemma LoadsOldVersion(es: seq<IndexEntry>, rest: Bytes, version: nat)
    requires AllInRange(es) && ShortPaths(es) && |es| < P32 && version < P16
    ensures var file := MAGIC + PutBE(version, 2) + PutBE(|es|, 4) + EncodeAllOld(es) + rest;
            (version == 1 ==> FileEntries(file) == Unfingerprinted(es)) &&
            (version != 1 && version != 2 ==> FileEntries(file) == [])
  {
    hide PutBE, GetBE, EncodeAllOld, ParseEntries, Unfingerprinted;
    var file := MAGIC + PutBE(version, 2) + PutBE(|es|, 4) + EncodeAllOld(es) + rest;
    OldHeader(version, |es|, EncodeAllOld(es), rest);
    OldEntriesParse(es, rest);
  }

  function PathOf(e: IndexEntry): Bytes { e.path }

  /** `Save`: sorts the entries in place and writes them out. */
  method Save(idx: Index, checksum: Bytes -> nat) returns (data: Bytes)
    requires idx.Valid()
    modifies idx
    ensures idx.Valid() && idx.entries == old(idx.entries) && idx.contents == old(idx.contents)
    ensures data == FileBytes(idx.entries, checksum)
    ensures |data| >= 14 && data[|data| - 4..] == PutBE(checksum(data[10..|data| - 4]), 4)
  {
    hide PutBE, EncodeEntries, Sorted, Agree;
    SortedIsStrict(idx.entries);
    idx.entries := SortBy(idx.entries, PathOf);
    data := MAGIC + PutBE(2, 2) + PutBE(|idx.entries|, 4);
    var body := WriteEntries(idx.entries);
    data := data + body;
    assert data[10..] == body;
    data := data + PutBE(checksum(data[10..]), 4);
    assert data[10..|data| - 4] == body;
  }

  method WriteEntries(es: seq<IndexEntry>) returns (data: Bytes)
    ensures data == EncodeEntries(es)
  {
    hide EncodeEntry;
    data := [];
    for i := 0 to |es|
      invariant data == EncodeEntries(es[..i])
    {
      EncodeAppend(es[..i], es[i]);
      assert es[..i + 1] == es[..i] + [es[i]];
      data := data + EncodeEntry(es[i]);
    }
    assert es[..|es|] == es;
  }

  lemma {:induction false} EncodeAppend(es: seq<IndexEntry>, e: IndexEntry)
    ensures EncodeEntries(es + [e]) == EncodeEntries(es) + EncodeEntry(e)
    decreases |es|
  {
    if es == [] {
      assert EncodeEntries([e]) == EncodeEntry(e) + EncodeEntries([]);
    } else {
      assert (es + [e])[1..] == es[1..] + [e];
      EncodeAppend(es[1..], e);
    }
  }

  lemma SortedIsStrict(es: seq<IndexEntry>)
    requires Sorted(es)
    ensures StrictlyBy(es, PathOf)
  {
  }

  /** `Load` on the bytes of the index file. */
  method Load(data: Bytes) returns (entries: seq<IndexEntry>)
    ensures multiset(entries) == multiset(FileEntries(data)) && AscendingBy(entries, PathOf)
    ensures StrictlyBy(FileEntries(data), PathOf) ==> entries == FileEntries(data)
  {
    if |data| < 10 {
      return [];
    }
    if data[0..4] != MAGIC {
      return [];
    }
    var version := GetBE(data[4..6]);
    if version != 1 && version != 2 {
      return [];
    }
    entries := ReadEntries(data, version, GetBE(data[6..10]));
    entries := SortBy(entries, PathOf);
  }

  method ReadEntries(data: Bytes, version: nat, count: nat) returns (entries: seq<IndexEntry>)
    requires |data| >= 10
    ensures entries == ParseEntries(data[10..], version, count)
  {
    hide ParseEntry;
    entries := [];
    var pos := 10;
    var i := 0;
    while i < count
      invariant 0 <= i <= count && 10 <= pos <= |data|
      invariant entries + ParseEntries(data[pos..], version, count - i) == ParseEntries(data[10..], version, count)
    {
      match ParseEntry(data[pos..], version)
      case None =>
        break;
      case Some(p) =>
        assert data[pos..][p.size..] == data[pos + p.size..];
        entries := entries + [p.entry];
        pos := pos + p.size;
        i := i + 1;
    }
  }

  /** Saving and loading gives the staging area back. */
  method SaveAndLoad(idx: Index, checksum: Bytes -> nat) returns (loaded: Index)
    requires idx.Valid() && AllInRange(idx.entries) && ShortPaths(idx.entries) && |idx.entries| < P32
    modifies idx
    ensures fresh(loaded) && loaded.Valid()
    ensures loaded.entries == old(idx.entries) && loaded.contents == old(idx.contents)
  {
    LoadsUnchanged(idx.entries, checksum);
    var data := Save(idx, checksum);
    SortedIsStrict(idx.entries);
    loaded := new Index();
    loaded.entries := Load(data);
    loaded.contents := idx.contents;
  }

  datatype IndexOp = AddOp(entry: IndexEntry) | RemoveOp(path: Bytes) | ReopenOp

  /** The map that a run of operations amounts to. */
  ghost function Replayed(m: map<Bytes, IndexEntry>, ops: seq<IndexOp>): map<Bytes, IndexEntry> {
    if ops == [] then m
    else
      var before := Replayed(m, ops[..|ops| - 1]);
      match ops[|ops| - 1]
      case AddOp(e) => before[e.path := e]
      case RemoveOp(p) => before - {p}
      case ReopenOp => before
  }

  ghost predicate Storable(ops: seq<IndexOp>) {
    |ops| < P32 && forall i :: 0 <= i < |ops| && ops[i].AddOp? ==> InRange(ops[i].entry) && |ops[i].entry.path| < P16
  }

  lemma {:induction false} PutKeeps(es: seq<IndexEntry>, e: IndexEntry)
    requires AllInRange(es + [e]) && ShortPaths(es + [e])
    ensures AllInRange(Put(es, e)) && ShortPaths(Put(es, e))
    decreases |es|
  {
    hide Less;
    var all := es + [e];
    assert all[|es|] == e && forall i :: 0 <= i < |es| ==> all[i] == es[i];
    if es != [] && es[0].path != e.path && !Less(e.path, es[0].path) {
      assert (es[1..] + [e]) == all[1..];
      PutKeeps(es[1..], e);
    }
  }

  lemma {:induction false} DropKeeps(es: seq<IndexEntry>, path: Bytes)
    requires AllInRange(es) && ShortPaths(es)
    ensures AllInRange(Drop(es, path)) && ShortPaths(Drop(es, path))
    decreases |es|
  {
    if es != [] && es[0].path != path {
      DropKeeps(es[1..], path);
    }
  }

  /** Over every run the sorted entries refine the map, through any number of saves and loads. */
  method Replay(ops: seq<IndexOp>, checksum: Bytes -> nat) returns (idx: Index)
    requires Storable(ops)
    ensures fresh(idx) && idx.Valid() && idx.contents == Replayed(map[], ops)
  {
    hide Sorted, Agree, Put, Drop;
    idx := new Index();
    for i := 0 to |ops|
      invariant fresh(idx) && idx.Valid() && idx.contents == Replayed(map[], ops[..i])
      invariant |idx.entries| <= i && AllInRange(idx.entries) && ShortPaths(idx.entries)
    {
      assert ops[..i + 1][..i] == ops[..i];
      match ops[i]
      case AddOp(e) =>
        PutKeeps(idx.entries, e);
        idx.Add(e);
      case RemoveOp(p) =>
        DropKeeps(idx.entries, p);
        idx.Remove(p);
      case ReopenOp => idx := SaveAndLoad(idx, checksum);
    }
    assert ops[..|ops|] == ops;
  }
}
