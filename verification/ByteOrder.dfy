/** Lexicographic order on byte strings, as Go compares strings and byte slices, and search and
    sorting by it. */
module ByteOrder {
  import opened Common

  predicate Less(a: Bytes, b: Bytes)
    decreases |a|
  {
    if b == [] then false
    else if a == [] then true
    else if a[0] != b[0] then a[0] < b[0]
    else Less(a[1..], b[1..])
  }

  /** The two agree up to i, and there the first has the smaller byte. */
  ghost predicate SmallerAt(a: Bytes, b: Bytes, i: nat) {
    i < |a| && i < |b| && a[..i] == b[..i] && a[i] < b[i]
  }

  lemma SmallerBehind(a: Bytes, b: Bytes, i: nat)
    requires a != [] && b != [] && a[0] == b[0]
    ensures SmallerAt(a, b, i + 1) <==> SmallerAt(a[1..], b[1..], i)
  {
    if i < |a| - 1 && i < |b| - 1 {
      assert a[..i + 1] == [a[0]] + a[1..][..i] && b[..i + 1] == [b[0]] + b[1..][..i];
      assert a[1..][..i] == a[..i + 1][1..] && b[1..][..i] == b[..i + 1][1..];
    }
  }

  lemma PrefixBehind(a: Bytes, b: Bytes)
    requires a != [] && b != [] && a[0] == b[0]
    ensures a < b <==> a[1..] < b[1..]
  {
    if a[1..] < b[1..] {
      assert a == [a[0]] + a[1..] && b == [b[0]] + b[1..];
    }
  }

  /** The first byte in which they differ is smaller in the first. */
  ghost predicate Smaller(a: Bytes, b: Bytes) {
    exists i: nat :: SmallerAt(a, b, i)
  }

  lemma SmallerTail(a: Bytes, b: Bytes)
    requires a != [] && b != [] && a[0] == b[0]
    ensures Smaller(a, b) <==> Smaller(a[1..], b[1..])
  {
    NotAtOnce(a, b);
    hide SmallerAt;
    if i: nat :| SmallerAt(a, b, i) {
      SmallerBehind(a, b, i - 1);
    }
    if i: nat :| SmallerAt(a[1..], b[1..], i) {
      SmallerBehind(a, b, i);
    }
  }

  lemma NotAtOnce(a: Bytes, b: Bytes)
    requires a != [] && b != [] && a[0] == b[0]
    ensures !SmallerAt(a, b, 0)
  {
  }

  lemma AgreeAtOnce(a: Bytes, b: Bytes, i: nat)
    requires 0 < i <= |a| && i <= |b| && a[..i] == b[..i]
    ensures a[0] == b[0]
  {
    assert a[..i][0] == a[0] && b[..i][0] == b[0];
  }

  lemma SmallerAtOnce(a: Bytes, b: Bytes)
    requires a != [] && b != [] && a[0] != b[0]
    ensures !(a < b) && (Smaller(a, b) <==> a[0] < b[0])
  {
    if a[0] < b[0] {
      assert SmallerAt(a, b, 0);
    }
    if i: nat :| SmallerAt(a, b, i) {
      if i > 0 {
        AgreeAtOnce(a, b, i);
      }
    }
  }

  /** One string is below another exactly if it is smaller at the first byte in which they differ, or
      ends before they differ. */
  lemma {:induction false} LessExactly(a: Bytes, b: Bytes)
    ensures Less(a, b) <==> a < b || Smaller(a, b)
    decreases |a|
  {
    if a != [] && b != [] {
      hide Smaller;
      if a[0] == b[0] {
        LessExactly(a[1..], b[1..]);
        PrefixBehind(a, b);
        SmallerTail(a, b);
      } else {
        SmallerAtOnce(a, b);
      }
    }
  }

  lemma {:induction false} LessTotal(a: Bytes, b: Bytes)
    ensures Less(a, b) || Less(b, a) || a == b
    ensures !(Less(a, b) && Less(b, a)) && !Less(a, a)
    decreases |a|
  {
    if a != [] {
      LessTotal(a[1..], a[1..]);
      if b != [] {
        LessTotal(a[1..], b[1..]);
        assert a == [a[0]] + a[1..] && b == [b[0]] + b[1..];
      }
    }
  }

  lemma {:induction false} LessTransitive(a: Bytes, b: Bytes, c: Bytes)
    requires Less(a, b) && Less(b, c)
    ensures Less(a, c)
    decreases |a|
  {
    if a != [] && a[0] == b[0] == c[0] {
      LessTransitive(a[1..], b[1..], c[1..]);
    }
  }

  lemma LessEqTransitive(a: Bytes, b: Bytes, c: Bytes)
    requires !Less(b, a) && !Less(c, b)
    ensures !Less(c, a)
  {
    LessTotal(a, b);
    LessTotal(b, c);
    if Less(c, a) {
      if a == b {
      } else if b == c {
      } else {
        LessTransitive(c, a, b);
      }
    }
  }

  ghost predicate Ascending(keys: seq<Bytes>) {
    forall i, j :: 0 <= i < j < |keys| ==> !Less(keys[j], keys[i])
  }

  ghost predicate StrictlyAscending(keys: seq<Bytes>) {
    forall i, j :: 0 <= i < j < |keys| ==> Less(keys[i], keys[j])
  }

  lemma StrictIsAscending(keys: seq<Bytes>)
    requires StrictlyAscending(keys)
    ensures Ascending(keys)
  {
    forall i, j | 0 <= i < j < |keys|
      ensures !Less(keys[j], keys[i])
    {
      LessTotal(keys[i], keys[j]);
    }
  }

  /** `sort.Search` for the first key that is not below the given one; on keys out of order it still
      stops, at some position. */
  method Search(keys: seq<Bytes>, key: Bytes) returns (i: nat)
    ensures i <= |keys|
    ensures Ascending(keys) ==> forall j :: 0 <= j < i ==> Less(keys[j], key)
    ensures Ascending(keys) ==> forall j :: i <= j < |keys| ==> !Less(keys[j], key)
  {
    i := 0;
    var hi := |keys|;
    while i < hi
      invariant 0 <= i <= hi <= |keys|
      invariant Ascending(keys) ==> forall j :: 0 <= j < i ==> Less(keys[j], key)
      invariant Ascending(keys) ==> forall j :: hi <= j < |keys| ==> !Less(keys[j], key)
    {
      var mid := (i + hi) / 2;
      if Ascending(keys) {
        SearchHalves(keys, key, mid);
      }
      if Less(keys[mid], key) {
        i := mid + 1;
      } else {
        hi := mid;
      }
    }
  }

  lemma SearchHalves(keys: seq<Bytes>, key: Bytes, mid: nat)
    requires Ascending(keys) && mid < |keys|
    ensures Less(keys[mid], key) ==> forall j :: 0 <= j <= mid ==> Less(keys[j], key)
    ensures !Less(keys[mid], key) ==> forall j :: mid <= j < |keys| ==> !Less(keys[j], key)
  {
    forall j | 0 <= j < mid && Less(keys[mid], key)
      ensures Less(keys[j], key)
    {
      LessTotal(keys[j], keys[mid]);
      if keys[j] != keys[mid] {
        LessTransitive(keys[j], keys[mid], key);
      }
    }
    forall j | mid < j < |keys| && !Less(keys[mid], key)
      ensures !Less(keys[j], key)
    {
      LessEqTransitive(key, keys[mid], keys[j]);
    }
  }

  ghost predicate AscendingBy<T>(items: seq<T>, key: T -> Bytes) {
    forall i, j :: 0 <= i < j < |items| ==> !Less(key(items[j]), key(items[i]))
  }

  /** No two items have the same key, and they are in order. */
  ghost predicate StrictlyBy<T>(items: seq<T>, key: T -> Bytes) {
    forall i, j :: 0 <= i < j < |items| ==> Less(key(items[i]), key(items[j]))
  }

  /** A sort by key that need not be stable: items with distinct keys that are already in order stay. */
  method SortBy<T>(items: seq<T>, key: T -> Bytes) returns (r: seq<T>)
    ensures multiset(r) == multiset(items) && |r| == |items| && AscendingBy(r, key)
    ensures StrictlyBy(items, key) ==> r == items
  {
    hide Less;
    r := [];
    for i := 0 to |items|
      invariant multiset(r) == multiset(items[..i]) && AscendingBy(r, key) && |r| == i
      invariant StrictlyBy(items, key) ==> r == items[..i]
    {
      assert items[..i + 1] == items[..i] + [items[i]];
      r := InsertBy(r, items[i], key);
    }
    assert items[..|items|] == items;
  }

  method InsertBy<T>(r: seq<T>, x: T, key: T -> Bytes) returns (r': seq<T>)
    requires AscendingBy(r, key)
    ensures multiset(r') == multiset(r + [x]) && |r'| == |r| + 1 && AscendingBy(r', key)
    ensures r == [] || Less(key(r[|r| - 1]), key(x)) ==> r' == r + [x]
  {
    hide Less;
    var k := |r|;
    if r != [] {
      LessTotal(key(x), key(r[|r| - 1]));
    }
    while k > 0 && Less(key(x), key(r[k - 1]))
      invariant 0 <= k <= |r|
      invariant forall j :: k <= j < |r| ==> Less(key(x), key(r[j]))
    {
      k := k - 1;
    }
    InsertAscending(r, x, k, key);
    r' := r[..k] + [x] + r[k..];
    assert r == r[..k] + r[k..];
  }

  lemma InsertAscending<T>(r: seq<T>, x: T, k: nat, key: T -> Bytes)
    requires AscendingBy(r, key) && k <= |r|
    requires k > 0 ==> !Less(key(x), key(r[k - 1]))
    requires forall j :: k <= j < |r| ==> Less(key(x), key(r[j]))
    ensures AscendingBy(r[..k] + [x] + r[k..], key)
  {
    hide Less;
    var fs := r[..k] + [x] + r[k..];
    forall j | 0 <= j < k
      ensures !Less(key(x), key(r[j]))
    {
      if j < k - 1 {
        LessEqTransitive(key(r[j]), key(r[k - 1]), key(x));
      }
    }
    forall i, j | 0 <= i < j < |fs|
      ensures !Less(key(fs[j]), key(fs[i]))
    {
      if i == k {
        LessTotal(key(x), key(r[j - 1]));
      }
    }
  }
}
