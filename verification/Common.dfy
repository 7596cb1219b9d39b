/** Types shared by the components: options, results, bytes and hashes. */
module Common {

  datatype Option<+T> = None | Some(value: T)

  datatype Result<+T> = Ok(value: T) | Err

  type Byte = b: int | 0 <= b < 256

  type Bytes = seq<Byte>

  const HASH_SIZE := 32

  /** A SHA-256 value: 32 bytes. How it is computed is a parameter wherever it matters. */
  type Hash = h: Bytes | |h| == 32 witness seq(32, _ => 0)

  const ZERO: Hash :=
    [0, 0, 0, 0, 0, 0, 0, 0, 0, 0, 0, 0, 0, 0, 0, 0, 0, 0, 0, 0, 0, 0, 0, 0, 0, 0, 0, 0, 0, 0, 0, 0]

  ghost predicate Distinct<T>(s: seq<T>) {
    forall i, j :: 0 <= i < j < |s| ==> s[i] != s[j]
  }

  lemma SubSlice<T>(s: seq<T>, o: nat, n: nat, i: nat, j: nat)
    requires i <= j <= n && o + n <= |s|
    ensures s[o..o + n][i..j] == s[o + i..o + j]
  {
    var t := s[o..o + n];
    forall k | 0 <= k < j - i
      ensures t[i..j][k] == s[o + i..o + j][k]
    {
      assert t[i..j][k] == t[i + k] == s[o + (i + k)];
    }
  }

  lemma SuffixAt<T>(x: seq<T>, y: seq<T>)
    ensures (x + y)[|x|..|x| + |y|] == y
  {
  }

  /** A list read so far in front of what the rest of the input gives. */
  function Behind<T>(a: seq<T>, r: Result<seq<T>>): Result<seq<T>> {
    match r
    case Err => Err
    case Ok(rest) => Ok(a + rest)
  }

  lemma BehindNone<T>(r: Result<seq<T>>)
    ensures Behind([], r) == r
  {
    if r.Ok? {
      assert [] + r.value == r.value;
    }
  }

  lemma BehindTwice<T>(a: seq<T>, b: seq<T>, r: Result<seq<T>>)
    ensures Behind(a, Behind(b, r)) == Behind(a + b, r)
  {
    if r.Ok? {
      assert a + (b + r.value) == a + b + r.value;
    }
  }
}
