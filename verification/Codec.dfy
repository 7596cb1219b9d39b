/** Big-endian integers of a fixed width. */
module Codec {
  import opened Common

  function Pow256(w: nat): (p: nat)
    ensures p > 0
  {
    if w == 0 then 1 else 256 * Pow256(w - 1)
  }

  const P16 := 0x1_0000
  const P32 := 0x1_0000_0000
  const P64 := 0x1_0000_0000_0000_0000

  /** A Go uint32. */
  type U32 = n: int | 0 <= n < 0x1_0000_0000

  /** The low w bytes of v, most significant first. */
  function PutBE(v: nat, w: nat): (b: Bytes)
    ensures |b| == w
    decreases w
  {
    if w == 0 then [] else PutBE(v / 256, w - 1) + [v % 256]
  }

  function GetBE(b: Bytes): nat {
    if b == [] then 0 else 256 * GetBE(b[..|b| - 1]) + b[|b| - 1]
  }

  lemma {:induction false} GetPut(v: nat, w: nat)
    requires v < Pow256(w)
    ensures GetBE(PutBE(v, w)) == v
    decreases w
  {
    if w > 0 {
      GetPut(v / 256, w - 1);
      assert PutBE(v, w)[..w - 1] == PutBE(v / 256, w - 1);
    }
  }

  lemma {:induction false} PutGet(b: Bytes)
    ensures GetBE(b) < Pow256(|b|)
    ensures PutBE(GetBE(b), |b|) == b
  {
    if b != [] {
      PutGet(b[..|b| - 1]);
    }
  }

  /** Only the value modulo 256^w survives. */
  lemma {:induction false} PutModulo(v: nat, w: nat)
    ensures GetBE(PutBE(v, w)) == v % Pow256(w)
    decreases w
  {
    if w > 0 {
      PutModulo(v / 256, w - 1);
      assert PutBE(v, w)[..w - 1] == PutBE(v / 256, w - 1);
      ModSplit(v, Pow256(w - 1));
    }
  }

  lemma ModSplit(v: nat, p: nat)
    requires p > 0
    ensures 256 * ((v / 256) % p) + v % 256 == v % (256 * p)
  {
    var q := v / 256 / p;
    var r := 256 * ((v / 256) % p) + v % 256;
    assert v / 256 == q * p + (v / 256) % p;
    assert v == q * (256 * p) + r;
    DivModUnique(v, 256 * p, q, r);
  }

  lemma DivModUnique(v: int, d: int, q: int, r: int)
    requires 0 <= r < d && v == q * d + r
    ensures v % d == r
  {
    var q', r' := v / d, v % d;
    assert q' * d + r' == v;
    assert (q - q') * d == q * d - q' * d;
    if q > q' {
      MulAtLeast(q - q', d);
    } else if q < q' {
      MulAtLeast(q' - q, d);
    }
  }

  lemma DivUnique(v: int, d: int, q: int, r: int)
    requires 0 <= r < d && v == q * d + r
    ensures v / d == q
  {
    DivModUnique(v, d, q, r);
    var q' := v / d;
    assert q' * d == q * d;
    assert (q - q') * d == 0;
    if q > q' {
      MulAtLeast(q - q', d);
    } else if q < q' {
      MulAtLeast(q' - q, d);
    }
  }

  lemma DivTwice(v: nat, p: nat)
    requires p > 0
    ensures v / 256 / p == v / (256 * p)
  {
    var q, r := v / 256 / p, (v / 256) % p;
    assert v / 256 == q * p + r;
    assert v == q * (256 * p) + (256 * r + v % 256);
    DivUnique(v, 256 * p, q, 256 * r + v % 256);
  }

  /** Byte i of w holds the digit of weight 256^(w - 1 - i): most significant first. */
  lemma {:induction false} DigitAt(v: nat, w: nat, i: nat)
    requires i < w
    ensures PutBE(v, w)[i] == v / Pow256(w - 1 - i) % 256
    decreases w
  {
    if i < w - 1 {
      DigitAt(v / 256, w - 1, i);
      DivTwice(v, Pow256(w - 2 - i));
    } else {
      assert Pow256(0) == 1;
    }
  }

  lemma MulAtLeast(k: int, d: int)
    requires k >= 1 && d > 0
    ensures k * d >= d
  {
  }

  lemma Widths()
    ensures Pow256(2) == P16 && Pow256(4) == P32 && Pow256(8) == P64
  {
    assert Pow256(1) == 256;
    assert Pow256(3) == 0x100_0000;
    assert Pow256(4) == P32;
    assert Pow256(5) == 256 * P32;
    assert Pow256(6) == 65536 * P32;
    assert Pow256(7) == 0x100_0000 * P32;
  }

  lemma SumModulo(a: nat, b: nat, m: nat)
    requires m > 0
    ensures (a % m + b) % m == (a + b) % m
  {
    var q := a / m + (a % m + b) / m;
    assert a + b == m * (a / m) + m * ((a % m + b) / m) + (a % m + b) % m;
    assert m * (a / m) + m * ((a % m + b) / m) == q * m;
    DivModUnique(a + b, m, q, (a % m + b) % m);
  }
}
