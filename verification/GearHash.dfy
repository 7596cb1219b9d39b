/** Arithmetic of the gear hash: 64-bit wrap-around, masks, and how fast old bytes drop out. */
module GearHash {
  import opened Common
  import opened Codec

  const P62 := 0x4000_0000_0000_0000
  const P63 := 0x8000_0000_0000_0000

  function Pow2(k: nat): (p: nat)
    ensures p > 0
  {
    if k == 0 then 1 else 2 * Pow2(k - 1)
  }

  lemma Pow2At64()
    ensures Pow2(64) == P64 && Pow2(63) == P63
  {
    assert Pow2(8) == 256;
    assert Pow2(16) == 0x1_0000;
    assert Pow2(24) == 0x100_0000;
    assert Pow2(32) == 0x1_0000_0000;
    assert Pow2(40) == 0x100_0000_0000;
    assert Pow2(48) == 0x1_0000_0000_0000;
    assert Pow2(56) == 0x100_0000_0000_0000;
  }

  lemma {:induction false} Pow2Sum(a: nat, b: nat)
    ensures Pow2(a + b) == Pow2(a) * Pow2(b)
  {
    if a > 0 {
      Pow2Sum(a - 1, b);
      assert Pow2(a) * Pow2(b) == 2 * (Pow2(a - 1) * Pow2(b));
    }
  }

  lemma Assoc(a: int, b: int, c: int)
    ensures a * (b * c) == (a * b) * c
  {
  }

  lemma Distribute(a: int, b: int, c: int)
    ensures (a + b) * c == a * c + b * c
  {
  }

  /** Reducing modulo a multiple first changes nothing. */
  lemma ModOfMultiple(v: nat, m: nat, d: nat)
    requires m > 0 && d > 0 && m * d > 0
    ensures (v % (m * d)) % d == v % d
  {
    var n := m * d;
    var q, r := v / n, v % n;
    var q', r' := r / d, r % d;
    assert v == q * n + r && r == q' * d + r';
    Assoc(q, m, d);
    Distribute(q * m, q', d);
    DivModUnique(v, d, q * m + q', r');
  }

  lemma DropMultiple(a: nat, b: nat, c: nat)
    requires c > 0 && b % c == 0
    ensures (a + b) % c == a % c
  {
    Distribute(a / c, b / c, c);
    DivModUnique(a + b, c, a / c + b / c, a % c);
  }

  lemma TimesMultiple(a: nat, p: nat, c: nat)
    requires c > 0 && a % c == 0
    ensures (a * p) % c == 0
  {
    var t := a / c;
    assert a == t * c;
    Assoc(t, p, c);
    Assoc(t, c, p);
    assert c * p == p * c;
    DivModUnique(a * p, c, t * p, 0);
  }

  lemma ModPlus(v: nat, p: nat)
    requires p > 0
    ensures v % (2 * p) == (v / p % 2) * p + v % p
    ensures (v + p) % (2 * p) == ((v / p + 1) % 2) * p + v % p
  {
    var a, s := v / p, v % p;
    assert v == a * p + s;
    Halved(a, p, s);
    Distribute(a, 1, p);
    Halved(a + 1, p, s);
  }

  lemma NextParity(x: nat)
    ensures x % 2 == 0 || x % 2 == 1
    ensures (x + 1) % 2 == 1 - x % 2
  {
  }

  /** Modulo 2p a number is what it is modulo p, or p more; adding p swaps the two. */
  lemma ByParity(v: nat, p: nat) returns (odd: bool)
    requires p > 0
    ensures v % (2 * p) == v % p + (if odd then p else 0)
    ensures (v + p) % (2 * p) == v % p + (if odd then 0 else p)
  {
    ModPlus(v, p);
    NextParity(v / p);
    odd := v / p % 2 == 1;
    assert 0 * p == 0 && 1 * p == p;
  }

  lemma ModDouble(v: nat, w: nat, p: nat)
    requires p > 0 && v % p == w % p
    ensures v % (2 * p) == w % (2 * p) || (v + p) % (2 * p) == w % (2 * p)
  {
    var a := ByParity(v, p);
    var b := ByParity(w, p);
  }

  lemma Halved(a: nat, p: nat, s: nat)
    requires s < p
    ensures (a * p + s) % (2 * p) == (a % 2) * p + s
  {
    var h := a / 2;
    assert a == 2 * h + a % 2;
    Distribute(2 * h, a % 2, p);
    Assoc(h, 2, p);
    assert h * 2 == 2 * h;
    DivModUnique(a * p + s, 2 * p, h, (a % 2) * p + s);
  }

  lemma ModMod(v: nat, j: nat, k: nat)
    requires j <= k
    ensures (v % Pow2(k)) % Pow2(j) == v % Pow2(j)
  {
    hide Pow2;
    Pow2Sum(k - j, j);
    ModOfMultiple(v, Pow2(k - j), Pow2(j));
  }

  /** A smaller power of two divides what a larger one divides. */
  lemma DivisibleDown(h: nat, j: nat, k: nat)
    requires j <= k && h % Pow2(k) == 0
    ensures h % Pow2(j) == 0
  {
    hide Pow2;
    ModMod(h, j, k);
    assert 0 % Pow2(j) == 0;
  }

  /** Bitwise and, by binary digits. */
  function BitAnd(a: nat, b: nat): nat
    decreases a
  {
    if a == 0 || b == 0 then 0 else (a % 2) * (b % 2) + 2 * BitAnd(a / 2, b / 2)
  }

  lemma {:induction false} AndLowMask(h: nat, k: nat)
    ensures BitAnd(h, Pow2(k) - 1) == h % Pow2(k)
    decreases k
  {
    if k > 0 {
      AndLowMask(h / 2, k - 1);
      var p := Pow2(k - 1);
      assert (Pow2(k) - 1) / 2 == p - 1 && (Pow2(k) - 1) % 2 == 1;
      HalfMod(h, p);
      assert h == 0 ==> h % Pow2(k) == 0;
    }
  }

  lemma HalfMod(h: nat, p: nat)
    requires p > 0
    ensures h % (2 * p) == 2 * ((h / 2) % p) + h % 2
  {
    var q, r := h / 2 / p, (h / 2) % p;
    assert h / 2 == q * p + r;
    Assoc(2, q, p);
    Assoc(q, 2, p);
    assert q * 2 == 2 * q;
    DivModUnique(h, 2 * p, q, 2 * r + h % 2);
  }
}
