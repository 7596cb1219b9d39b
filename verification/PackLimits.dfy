/** What the 32-bit fields of a pack cannot describe. */
module PackLimits {
  import opened Common
  import opened Codec
  import opened ByteOrder
  import opened ObjectFormat
  import opened PackFormat
  import opened PackFile

  /** zstd stands for the identity, and an object of 2^32 bytes comes first: the object behind it is
      looked for at the start of the body, and lost. */
  lemma WrappedOffsetLoses(content: Bytes, hashOf: Bytes -> Hash, crc: Bytes -> U32,
                                              sorted: seq<PackEntry>, entries: seq<PackEntry>)
    requires |content| == P32 - 16
    requires hashOf(Format(BlobType, content)) != hashOf(Format(TreeType, []))
    requires var c := Plain(hashOf, crc);
             var added := [Format(BlobType, content), Format(TreeType, [])];
             AllPackable(added, c) && Describes(entries, added, c) && multiset(sorted) == multiset(entries)
    ensures var c := Plain(hashOf, crc);
            var added := [Format(BlobType, content), Format(TreeType, [])];
            Invertible(added, c) && CollisionFree(added, c) && !Fits(added, c) &&
            Scanned(Written(sorted, added, c), sorted, hashOf(added[1]), c) != Ok(added[1])
  {
    hide ParseHeader, Scanned, ReadEntry, Written, Format, EntryAtOffset;
    var c := Plain(hashOf, crc);
    var a, b := Format(BlobType, content), Format(TreeType, []);
    var added := [a, b];
    PlainSizes(content);
    PlainBody(a, b, c);
    assert !Fits(added, c) by { assert added[..1] == [a]; }
    var k := FirstWith(sorted, hashOf(b));
    ScannedFirst(Written(sorted, added, c), sorted, hashOf(b), c, k);
    if k < |sorted| {
      var j := EntryOrigin(sorted, entries, added, c, k);
      EntryHash(added[j], |Body(added[..j], c)|, c);
      assert j == 1;
      EntryReadsExactly(sorted, added, c, 1);
      assert Body(added, c)[0] == a[0];
    }
  }

  lemma EntryHash(data: Bytes, start: nat, c: Codecs)
    requires Packable(data, c)
    ensures EntryAtOffset(data, start, c).hash == c.hashOf(data)
  {
  }

  function Plain(hashOf: Bytes -> Hash, crc: Bytes -> U32): Codecs {
    Codecs(hashOf, d => Ok(d), d => Ok(d), crc)
  }

  lemma PlainSizes(content: Bytes)
    requires |content| == P32 - 16
    ensures |Format(BlobType, content)| == P32 && Format(BlobType, content)[0] == 98
    ensures 0 < |Format(TreeType, [])| < P32 && Format(TreeType, [])[0] == 116
  {
    hide Digits;
    DigitCount(|content|, 9);
    DigitCount(0, 0);
    assert Pow10(3) == 1000 && Pow10(6) == 1_000_000 && Pow10(9) == 1_000_000_000 && Pow10(10) == 10_000_000_000;
  }

  function Pow10(k: nat): nat {
    if k == 0 then 1 else 10 * Pow10(k - 1)
  }

  lemma {:induction false} DigitCount(n: nat, k: nat)
    requires n < Pow10(k + 1) && (k > 0 ==> Pow10(k) <= n)
    ensures |Digits(n, Decimal)| == k + 1
    decreases k
  {
    if k > 0 {
      DigitCount(n / 10, k - 1);
    }
  }

  lemma PlainBody(a: Bytes, b: Bytes, c: Codecs)
    requires c.compress(a) == Ok(a) && c.compress(b) == Ok(b)
    ensures Compressed(a, c) == a && Compressed(b, c) == b
    ensures Body([a], c) == a && Body([a, b], c) == a + b
  {
    assert [a][..0] == [] && [a, b][..1] == [a];
  }
}
