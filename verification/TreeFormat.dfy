/** Tree objects: serializing entries in name order and parsing them back. */
module TreeFormat {
  import opened Common
  import opened ByteOrder
  import opened ObjectFormat

  const MODE_REGULAR := 33188 // 0100644
  const MODE_EXEC := 33261    // 0100755
  const MODE_SYMLINK := 40960 // 0120000
  const MODE_DIR := 16384     // 0040000

  datatype Entry = Entry(mode: nat, name: Bytes, hash: Hash, isTree: bool)

  /** An entry that reads back as itself: no zero byte in the name, type as the mode says. */
  predicate Plain(e: Entry) {
    NUL !in e.name && e.isTree == (e.mode == MODE_DIR)
  }

  ghost predicate AllPlain(es: seq<Entry>) {
    forall i :: 0 <= i < |es| ==> Plain(es[i])
  }

  function EncodeEntry(e: Entry): Bytes {
    Digits(e.mode, Octal) + [SPACE] + e.name + [NUL] + e.hash
  }

  function EncodeEntries(es: seq<Entry>): Bytes {
    if es == [] then [] else EncodeEntry(es[0]) + EncodeEntries(es[1..])
  }

  datatype Front = Front(entry: Entry, size: nat)

  function ParseEntry(d: Bytes): (r: Option<Front>)
    ensures r.Some? ==> 0 < r.value.size <= |d|
  {
    var nul := IndexByte(d, NUL);
    if nul == |d| then None
    else
      var header := d[..nul];
      var sp := IndexByte(header, SPACE);
      if sp == |header| then None
      else match Number(header[..sp], Octal)
        case None => None
        case Some(mode) =>
          if nul + 1 + HASH_SIZE > |d| then None
          else Some(Front(Entry(mode, header[sp + 1..], d[nul + 1..nul + 1 + HASH_SIZE], mode == MODE_DIR),
                          nul + 1 + HASH_SIZE))
  }

  function Parsed(d: Bytes): Result<seq<Entry>>
    decreases |d|
  {
    if d == [] then Ok([])
    else match ParseEntry(d)
      case None => Err
      case Some(f) => match Parsed(d[f.size..])
        case Err => Err
        case Ok(rest) => Ok([f.entry] + rest)
  }

  lemma EntryRoundTrip(e: Entry, tail: Bytes)
    requires Plain(e)
    ensures ParseEntry(EncodeEntry(e) + tail) == Some(Front(e, |EncodeEntry(e)|))
  {
    hide Digits, Number, IndexByte;
    var digits := Digits(e.mode, Octal);
    var header := digits + [SPACE] + e.name;
    var d := EncodeEntry(e) + tail;
    assert d == header + [NUL] + (e.hash + tail);
    IndexOf(header, NUL, e.hash + tail);
    IndexOf(digits, SPACE, e.name);
    assert d[..|header|] == header;
    assert header[..|digits|] == digits && header[|digits| + 1..] == e.name;
    assert d[|header| + 1..|header| + 33] == e.hash;
    NumberOfDigits(e.mode, Octal);
  }

  lemma OctalStep(q: nat, r: nat)
    requires q > 0 && r < 8
    ensures Digits(8 * q + r, Octal) == Digits(q, Octal) + [48 + r]
  {
  }

  lemma OctalDigits(a: nat, b: nat, c: nat, d: nat, e: nat)
    requires 0 < a < 8 && b < 8 && c < 8 && d < 8 && e < 8
    ensures Digits(4096 * a + 512 * b + 64 * c + 8 * d + e, Octal) == [48 + a, 48 + b, 48 + c, 48 + d, 48 + e]
  {
    assert Digits(a, Octal) == [48 + a];
    hide Digits;
    OctalStep(a, b);
    OctalStep(8 * a + b, c);
    OctalStep(64 * a + 8 * b + c, d);
    OctalStep(512 * a + 64 * b + 8 * c + d, e);
  }

  /** The modes as they are written: 100644, 100755, 120000 and 40000. */
  lemma ModesInText()
    ensures Digits(MODE_REGULAR, Octal) == [49, 48, 48, 54, 52, 52]
    ensures Digits(MODE_EXEC, Octal) == [49, 48, 48, 55, 53, 53]
    ensures Digits(MODE_SYMLINK, Octal) == [49, 50, 48, 48, 48, 48]
    ensures Digits(MODE_DIR, Octal) == [52, 48, 48, 48, 48]
  {
    hide Digits;
    OctalDigits(1, 0, 0, 6, 4);
    OctalStep(4148, 4);
    OctalDigits(1, 0, 0, 7, 5);
    OctalStep(4157, 5);
    OctalDigits(1, 2, 0, 0, 0);
    OctalStep(5120, 0);
    OctalDigits(4, 0, 0, 0, 0);
  }

  /** Where the parts of an entry lie. */
  lemma EntryLayout(e: Entry)
    ensures var b, n := EncodeEntry(e), |Digits(e.mode, Octal)|;
            |b| == n + |e.name| + 34 && b[..n] == Digits(e.mode, Octal) && b[n] == SPACE &&
            b[n + 1..n + 1 + |e.name|] == e.name && b[n + 1 + |e.name|] == NUL && b[n + 2 + |e.name|..] == e.hash
  {
    hide Digits;
    var digits := Digits(e.mode, Octal);
    assert EncodeEntry(e) == digits + ([SPACE] + (e.name + ([NUL] + e.hash)));
  }

  /** The bytes start with a mode in octal digits, a space, a name, a zero byte and a hash. */
  ghost predicate EntryOf(d: Bytes, e: Entry, size: nat) {
    NUL !in e.name && e.isTree == (e.mode == MODE_DIR) &&
    exists digits :: Number(digits, Octal) == Some(e.mode) && size <= |d| &&
                     d[..size] == digits + [SPACE] + e.name + [NUL] + e.hash
  }

  lemma {:induction false} ReadIsEntry(d: Bytes, e: Entry, size: nat)
    requires ParseEntry(d) == Some(Front(e, size))
    ensures EntryOf(d, e, size)
  {
    hide Digits, Number, IndexByte;
    var nul := IndexByte(d, NUL);
    var header := d[..nul];
    var sp := IndexByte(header, SPACE);
    var digits := header[..sp];
    assert header == digits + [SPACE] + e.name;
    assert d[..nul + 1 + HASH_SIZE] == header + [NUL] + e.hash;
    assert forall i :: 0 <= i < |e.name| ==> e.name[i] == d[sp + 1 + i];
  }

  lemma {:induction false} EntryIsRead(d: Bytes, e: Entry, size: nat)
    requires EntryOf(d, e, size)
    ensures ParseEntry(d) == Some(Front(e, size))
  {
    hide Digits, Number, IndexByte;
    var digits :| Number(digits, Octal) == Some(e.mode) && size <= |d| &&
                  d[..size] == digits + [SPACE] + e.name + [NUL] + e.hash;
    NumberText(digits, Octal);
    hide ParseEntry;
    var rest := d[size..];
    assert d == digits + [SPACE] + e.name + [NUL] + e.hash + rest;
    PartsAreRead(digits, e, rest);
  }

  lemma {:induction false} PartsAreRead(digits: Bytes, e: Entry, rest: Bytes)
    requires SPACE !in digits && NUL !in digits && NUL !in e.name && e.isTree == (e.mode == MODE_DIR)
    requires Number(digits, Octal) == Some(e.mode)
    ensures var d := digits + [SPACE] + e.name + [NUL] + e.hash + rest;
            ParseEntry(d) == Some(Front(e, |digits| + |e.name| + 2 + HASH_SIZE))
  {
    hide Digits, Number, IndexByte;
    var header := digits + [SPACE] + e.name;
    var d := digits + [SPACE] + e.name + [NUL] + e.hash + rest;
    assert d == header + [NUL] + (e.hash + rest);
    IndexOf(header, NUL, e.hash + rest);
    IndexOf(digits, SPACE, e.name);
    assert d[..|header|] == header && header[..|digits|] == digits && header[|digits| + 1..] == e.name;
    assert d[|header| + 1..|header| + 33] == e.hash;
  }

  /** An entry is read exactly where one is, whatever follows. */
  lemma EntryExactly(d: Bytes, e: Entry, size: nat)
    ensures ParseEntry(d) == Some(Front(e, size)) <==> EntryOf(d, e, size)
  {
    hide ParseEntry, EntryOf;
    if ParseEntry(d) == Some(Front(e, size)) {
      ReadIsEntry(d, e, size);
    }
    if EntryOf(d, e, size) {
      EntryIsRead(d, e, size);
    }
  }

  lemma {:induction false} EntriesRoundTrip(es: seq<Entry>)
    requires AllPlain(es)
    ensures Parsed(EncodeEntries(es)) == Ok(es)
    decreases |es|
  {
    hide EncodeEntry, ParseEntry;
    if es != [] {
      var enc, rest := EncodeEntry(es[0]), EncodeEntries(es[1..]);
      EntryRoundTrip(es[0], rest);
      var d := enc + rest;
      assert d[|enc|..] == rest;
      EntriesRoundTrip(es[1..]);
      assert es == [es[0]] + es[1..];
    }
  }

  lemma EntriesInjective(es: seq<Entry>, fs: seq<Entry>)
    requires AllPlain(es) && AllPlain(fs) && EncodeEntries(es) == EncodeEntries(fs)
    ensures es == fs
  {
    hide EncodeEntries;
    EntriesRoundTrip(es);
    EntriesRoundTrip(fs);
  }

  method ParseTree(data: Bytes) returns (r: Result<seq<Entry>>)
    ensures r == Parsed(data)
  {
    hide ParseEntry;
    var entries := [];
    var pos := 0;
    assert data[0..] == data;
    BehindNone(Parsed(data));
    while pos < |data|
      invariant pos <= |data|
      invariant Parsed(data) == Behind(entries, Parsed(data[pos..]))
      decreases |data| - pos
    {
      match ParseEntry(data[pos..])
      case None =>
        return Err;
      case Some(f) =>
        var d := data[pos..];
        assert d[f.size..] == data[pos + f.size..];
        assert Parsed(d) == Behind([f.entry], Parsed(d[f.size..]));
        BehindTwice(entries, [f.entry], Parsed(d[f.size..]));
        entries := entries + [f.entry];
        pos := pos + f.size;
    }
    assert data[pos..] == [] && entries + [] == entries;
    r := Ok(entries);
  }

  function NameOf(e: Entry): Bytes { e.name }

  /** Sorts by name, then writes the entries one after another. */
  method SerializeTree(entries: seq<Entry>) returns (data: Bytes)
    ensures exists sorted ::
              multiset(sorted) == multiset(entries) && AscendingBy(sorted, NameOf) && data == EncodeEntries(sorted)
    ensures StrictlyBy(entries, NameOf) ==> data == EncodeEntries(entries)
  {
    hide EncodeEntry;
    var es := SortBy(entries, NameOf);
    data := [];
    for i := 0 to |es|
      invariant data + EncodeEntries(es[i..]) == EncodeEntries(es)
    {
      assert es[i..][0] == es[i] && es[i..][1..] == es[i + 1..];
      data := data + EncodeEntry(es[i]);
    }
  }
}
