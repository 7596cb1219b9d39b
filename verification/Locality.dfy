/** Exactly when chunk boundaries are local: the converse of `BoundaryMoves`. */
module Locality {
  import opened Common
  import opened Codec
  import opened GearHash
  import opened FastCdc
  import opened Chunking

  // ---------------------------------------------------------------------------------------------
  // Disputed bytes give different boundaries
  // ---------------------------------------------------------------------------------------------

  /** Where the two tests never both pass up to a position at which exactly one does, the first cuts differ. */
  lemma {:induction false} FirstCutDiffers(gear: seq<nat>, masks: seq<nat>, d: Bytes, d': Bytes, o: nat, o': nat,
                                           s: nat, s': nat, p: nat, stop: nat, maxEnd: nat)
    requires |gear| == 256 && s <= p && s' <= p <= stop && stop + 1 < maxEnd
    requires o + maxEnd <= |d| && o' + maxEnd <= |d'|
    requires forall q :: p <= q <= stop ==>
      !(Cuts(gear, masks, d, o, s, q) && Cuts(gear, masks, d', o', s', q))
    requires Cuts(gear, masks, d, o, s, stop) || Cuts(gear, masks, d', o', s', stop)
    ensures FirstCut(gear, masks, d, o + s, o + p, o + maxEnd) - o !=
            FirstCut(gear, masks, d', o' + s', o' + p, o' + maxEnd) - o'
    decreases stop - p
  {
    hide CutsAt, Rolled;
    FirstCutRange(gear, masks, d, o + s, o + p + 1, o + maxEnd);
    FirstCutRange(gear, masks, d', o' + s', o' + p + 1, o' + maxEnd);
    assert !(Cuts(gear, masks, d, o, s, p) && Cuts(gear, masks, d', o', s', p));
    if !Cuts(gear, masks, d, o, s, p) && !Cuts(gear, masks, d', o', s', p) {
      FirstCutDiffers(gear, masks, d, d', o, o', s, s', p + 1, stop, maxEnd);
    }
  }

  /** The test at position q of the chunk that starts at o, with the window starting at s. */
  predicate Cuts(gear: seq<nat>, masks: seq<nat>, d: Bytes, o: nat, s: nat, q: nat)
    requires |gear| == 256 && s <= q && o + q < |d|
  {
    CutsAt(Rolled(gear, d[o + s..o + q + 1]), masks)
  }

  /** If both windows once pass, the bytes only one of them holds have shifted out for good. */
  lemma BothPassAgree(gear: seq<nat>, cfg: Config, x: Bytes, u: Bytes, k: nat)
    requires |gear| == 256 && k <= |u| && Divides(gear, cfg, u[..k]) && Divides(gear, cfg, x + u[..k])
    ensures Divides(gear, cfg, u) <==> Divides(gear, cfg, x + u)
  {
    hide Pow2, Weighted, CutBits;
    var c, v := Pow2(CutBits(cfg.avgSize)), u[..k];
    var y := Weighted(gear, x);
    WeightedAppend(gear, x, v);
    DropMultiple(y * Pow2(k), Weighted(gear, v), c);
    TimesMultiple(y * Pow2(k), Pow2(|u| - k), c);
    Pow2Sum(k, |u| - k);
    Assoc(y, Pow2(k), Pow2(|u| - k));
    WeightedAppend(gear, x, u);
    DropMultiple(Weighted(gear, u), y * Pow2(|u|), c);
  }

  /** Zeros, then the bytes, then one more byte. */
  function Placed(o: nat, w: Bytes): (d: Bytes)
    ensures |d| == o + |w| + 1 && d[o..] == w + [0] && d[o..o + |w|] == w
  {
    var zeros: Bytes := seq(o, _ => 0);
    var d := zeros + w + [0];
    assert d[o..] == w + [0];
    assert d[o..o + |w|] == w;
    d
  }

  /** Disputed bytes have different boundaries at a chunk start that is primed and at one that is not. */
  lemma DisputedDiffers(gear: seq<nat>, cfg: Config, x: Bytes, u: Bytes, o: nat, o': nat)
    requires |gear| == 256 && Sized(cfg) && Disputed(gear, cfg, x, u)
    requires !Primed(cfg, o) && Primed(cfg, o') && o' + cfg.maxSize < P62
    ensures var d, d' := Placed(o, x + u), Placed(o', x + u);
            Boundary(gear, cfg, d, o) - o != Boundary(gear, cfg, d', o') - o'
  {
    hide CutsAt, Rolled, Masks, Divides, WindowStart, FirstCut, Placed;
    var d, d', m := Placed(o, x + u), Placed(o', x + u), cfg.minSize;
    var masks, stop, n := Masks(cfg.avgSize), m + |u| - 1, m + |u| + 1;
    WindowStarts(cfg, o);
    WindowStarts(cfg, o');
    forall q | m <= q <= stop
      ensures Cuts(gear, masks, d, o, m, q) <==> Divides(gear, cfg, u[..q - m + 1])
      ensures Cuts(gear, masks, d', o', 0, q) <==> Divides(gear, cfg, x + u[..q - m + 1])
      ensures !(Cuts(gear, masks, d, o, m, q) && Cuts(gear, masks, d', o', 0, q))
    {
      var v := u[..q - m + 1];
      WindowBytes(d, o, x, u, q);
      WindowBytes(d', o', x, u, q);
      CutIsDivisibility(gear, cfg, v);
      CutIsDivisibility(gear, cfg, x + v);
      if Divides(gear, cfg, v) && Divides(gear, cfg, x + v) {
        BothPassAgree(gear, cfg, x, u, q - m + 1);
      }
    }
    assert u[..stop - m + 1] == u;
    FirstCutDiffers(gear, masks, d, d', o, o', m, 0, m, stop, n);
  }

  lemma WindowBytes(d: Bytes, o: nat, x: Bytes, u: Bytes, q: nat)
    requires o + |x + u| <= |d| && d[o..o + |x + u|] == x + u && |x| <= q < |x| + |u|
    ensures d[o + |x|..o + q + 1] == u[..q - |x| + 1]
    ensures d[o..o + q + 1] == x + u[..q - |x| + 1]
  {
    SubSlice(d, o, |x + u|, |x|, q + 1);
    SubSlice(d, o, |x + u|, 0, q + 1);
    assert (x + u)[|x|..q + 1] == u[..q - |x| + 1];
    assert (x + u)[0..q + 1] == x + u[..q - |x| + 1];
  }

  /** For any table, configuration and pair of chunk starts: the boundaries agree on all inputs with
      the same bytes behind the two starts if and only if the starts are local. */
  lemma LocalExactly(gear: seq<nat>, cfg: Config, o: nat, o': nat)
    requires |gear| == 256 && Sized(cfg) && o + cfg.maxSize < P62 && o' + cfg.maxSize < P62
    ensures LocalAt(gear, cfg, o, o') <==>
            forall d: Bytes, d': Bytes | SameBehind(d, o, d', o') ::
              Boundary(gear, cfg, d, o) - o == Boundary(gear, cfg, d', o') - o'
  {
    hide Boundary, Disputed, Placed;
    if LocalAt(gear, cfg, o, o') {
      forall d: Bytes, d': Bytes | SameBehind(d, o, d', o')
        ensures Boundary(gear, cfg, d, o) - o == Boundary(gear, cfg, d', o') - o'
      {
        BoundaryMoves(gear, cfg, d, d', o, o');
      }
    } else {
      var x, u :| Disputed(gear, cfg, x, u);
      assert |x + u| < cfg.maxSize by { DisputedFits(gear, cfg, x, u); }
      var d, d' := Placed(o, x + u), Placed(o', x + u);
      assert SameBehind(d, o, d', o');
      if Primed(cfg, o') {
        DisputedDiffers(gear, cfg, x, u, o, o');
      } else {
        DisputedDiffers(gear, cfg, x, u, o', o);
      }
    }
  }

  lemma DisputedFits(gear: seq<nat>, cfg: Config, x: Bytes, u: Bytes)
    requires |gear| == 256 && Disputed(gear, cfg, x, u)
    ensures |x + u| < cfg.maxSize
  {
  }

  /** Two inputs with the same bytes behind two chunk starts. */
  ghost predicate SameBehind(d: Bytes, o: nat, d': Bytes, o': nat) {
    Addressable(d) && Addressable(d') && o < |d| && o' < |d'| && d[o..] == d'[o'..]
  }

  // ---------------------------------------------------------------------------------------------
  // The generator's table
  // ---------------------------------------------------------------------------------------------

  /** The table as `initGearTable` fills it. */
  ghost predicate Generated(gear: seq<nat>) {
    |gear| == 256 && forall i :: 0 <= i < 256 ==> gear[i] == StateAfter(i + 1)
  }

  lemma NextModFour(s: nat)
    ensures NextState(s) % 4 == (s + 3) % 4
  {
    var a, b := s * 1591034055961698251 + 360673760222240851, s + 3;
    var raw := s * 6364136223846793005 + 1442695040888963407;
    assert raw == 4 * a + b;
    ModOfMultiple(raw, P62, 4);
    DropMultiple(b, 4 * a, 4);
  }

  lemma StateModFour(i: nat)
    ensures StateAfter(i + 1) % 4 == (StateAfter(i) % 4 + 3) % 4
  {
    hide NextState;
    NextModFour(StateAfter(i));
  }

  lemma FirstStates()
    ensures StateAfter(1) % 4 == 3 && StateAfter(2) % 4 == 2 && StateAfter(3) % 4 == 1 && StateAfter(4) % 4 == 0
  {
    assert StateAfter(0) % 4 == 0;
    hide StateAfter;
    StateModFour(0);
    StateModFour(1);
    StateModFour(2);
    StateModFour(3);
  }

  /** The first four entries have all four remainders. */
  function ByteFor(r: nat): Byte { 3 - r % 4 }

  lemma EntryFor(gear: seq<nat>, r: nat)
    requires |gear| == 256 && Generated(gear)
    ensures gear[ByteFor(r)] % 4 == r % 4
  {
    hide StateAfter;
    FirstStates();
    var b := ByteFor(r);
    assert gear[b] == StateAfter(b + 1);
  }

  lemma WeightedCons(gear: seq<nat>, b: Byte, rest: Bytes)
    requires |gear| == 256
    ensures Weighted(gear, [b] + rest) == gear[b] * Pow2(|rest|) + Weighted(gear, rest)
  {
    hide Pow2;
    assert ([b] + rest)[1..] == rest;
  }

  lemma Pow2Steps(k: nat)
    ensures Pow2(k + 1) == 2 * Pow2(k) && Pow2(k + 2) == 4 * Pow2(k) && Pow2(0) == 1
  {
  }

  /** Words of k bytes have weighted sums with every remainder modulo 2^(k+1). */
  lemma {:induction false} WordFor(gear: seq<nat>, k: nat, r: nat) returns (w: Bytes)
    requires |gear| == 256 && Generated(gear) && k > 0
    ensures |w| == k && Weighted(gear, w) % Pow2(k + 1) == r % Pow2(k + 1)
    decreases k
  {
    hide Generated, Weighted, Pow2, ByteFor;
    Pow2Steps(k - 1);
    if k == 1 {
      w := [ByteFor(r)] + [];
      EntryFor(gear, r);
      WeightedCons(gear, ByteFor(r), []);
      NoWeight(gear);
      Pow2Steps(0);
    } else {
      var rest := WordFor(gear, k - 1, r);
      var q, v := Pow2(k - 1), Weighted(gear, rest);
      var low := if v % (4 * q) == r % (4 * q) then 0 else 2;
      w := [ByteFor(low)] + rest;
      EntryFor(gear, low);
      WeightedCons(gear, ByteFor(low), rest);
      LeadingByte(gear[ByteFor(low)], v, q, r);
    }
  }

  lemma NoWeight(gear: seq<nat>)
    requires |gear| == 256
    ensures Weighted(gear, []) == 0
  {
  }

  lemma LeadingByte(g: nat, v: nat, q: nat, r: nat)
    requires q > 0 && v % (2 * q) == r % (2 * q)
    requires if v % (4 * q) == r % (4 * q) then g % 4 == 0 else g % 4 == 2
    ensures (g * q + v) % (4 * q) == r % (4 * q)
  {
    var a := g / 4;
    assert g == 4 * a + g % 4;
    Distribute(4 * a, g % 4, q);
    Assoc(a, 4, q);
    assert a * 4 == 4 * a;
    DivModUnique(a * (4 * q), 4 * q, a, 0);
    DropMultiple((g % 4) * q + v, a * (4 * q), 4 * q);
    ModDouble(v, r, 2 * q);
    assert 2 * (2 * q) == 4 * q;
  }

  /** Bytes x and u with an odd sum for x whose common sum 2^c divides. */
  lemma WordsFor(gear: seq<nat>, m: nat, k: nat, c: nat) returns (x: Bytes, u: Bytes)
    requires |gear| == 256 && Generated(gear) && m > 0 && k > 0 && c <= m + k + 1
    ensures |x| == m && |u| == k
    ensures Weighted(gear, x) % 2 == 1 && Weighted(gear, x + u) % Pow2(c) == 0
  {
    hide Generated, Weighted, Pow2, Completing;
    var p, q := Pow2(k), Pow2(m + 1);
    Pow2Steps(k);
    Pow2Steps(m);
    u := WordFor(gear, k, p);
    var n := OddMultiple(Weighted(gear, u), p);
    x := WordFor(gear, m, Completing(n, q));
    Complement(Weighted(gear, x), n, q);
    EvenMultiple(Weighted(gear, x) + n, Pow2(m));
    OddRest(Weighted(gear, x), n);
    var s := Weighted(gear, x) + n;
    WeightedAppend(gear, x, u);
    Distribute(Weighted(gear, x), n, p);
    SharedPower(s, m + 1, k);
    DivisibleDown(s * p, c, m + 1 + k);
  }

  /** A number that is p modulo 2p is an odd multiple of p. */
  lemma OddMultiple(v: nat, p: nat) returns (n: nat)
    requires p > 0 && v % (2 * p) == p % (2 * p)
    ensures n % 2 == 1 && v == n * p
  {
    ModPlus(v, p);
    ModPlus(p, p);
    n := v / p;
  }

  lemma Multiple(a: nat, q: nat)
    requires q > 0
    ensures (a * q) % q == 0
  {
    DivModUnique(a * q, q, a, 0);
  }

  /** A number that n completes to a multiple of q. */
  function Completing(n: nat, q: nat): nat
    requires q > 0
  {
    n * (q - 1)
  }

  lemma Complement(x: nat, n: nat, q: nat)
    requires q > 0 && x % q == Completing(n, q) % q
    ensures (x + n) % q == 0
  {
    hide Completing;
    CompletedTimes(n, q);
    SameShift(x, Completing(n, q), n, q);
  }

  lemma OddRest(x: nat, n: nat)
    requires n % 2 == 1 && (x + n) % 2 == 0
    ensures x % 2 == 1
  {
  }

  lemma SameShift(x: nat, y: nat, n: nat, q: nat)
    requires q > 0 && x % q == y % q
    ensures (x + n) % q == (y + n) % q
  {
    SumModulo(x, n, q);
    SumModulo(y, n, q);
  }

  lemma CompletedTimes(n: nat, q: nat)
    requires q > 0
    ensures (Completing(n, q) + n) % q == 0
  {
    LastTime(n, q);
    Multiple(n, q);
  }

  lemma LastTime(n: nat, q: nat)
    requires q > 0
    ensures n * (q - 1) + n == n * q
  {
  }

  lemma EvenMultiple(s: nat, h: nat)
    requires h > 0 && s % (2 * h) == 0
    ensures s % 2 == 0
  {
    var a := s / (2 * h);
    assert s == a * (2 * h) == 2 * (a * h);
  }

  lemma SharedPower(s: nat, a: nat, b: nat)
    requires s % Pow2(a) == 0
    ensures (s * Pow2(b)) % Pow2(a + b) == 0
  {
    hide Pow2;
    var t := s / Pow2(a);
    assert s == t * Pow2(a);
    Pow2Sum(a, b);
    Assoc(t, Pow2(a), Pow2(b));
    DivModUnique(s * Pow2(b), Pow2(a + b), t, 0);
  }

  /** With an odd sum for x, u and x + u are not both divisible by a power of two above 2^|u|. */
  lemma OddDisputes(gear: seq<nat>, x: Bytes, u: Bytes, c: nat)
    requires |gear| == 256 && Weighted(gear, x) % 2 == 1 && |u| < c
    ensures !(Weighted(gear, u) % Pow2(c) == 0 && Weighted(gear, x + u) % Pow2(c) == 0)
  {
    hide Weighted, Pow2;
    if Weighted(gear, u) % Pow2(c) == 0 && Weighted(gear, x + u) % Pow2(c) == 0 {
      var k := |u|;
      var p := Pow2(k);
      Pow2Steps(k);
      DivisibleDown(Weighted(gear, u), k + 1, c);
      DivisibleDown(Weighted(gear, x + u), k + 1, c);
      WeightedAppend(gear, x, u);
      DropMultiple(Weighted(gear, x) * p, Weighted(gear, u), 2 * p);
      Halved(Weighted(gear, x), p, 0);
    }
  }

  /** For the generator's table, and unless the tested bits outnumber the bytes of the largest chunk:
      there is a conflict exactly when the minimum is not zero, the maximum leaves more than one
      position to the test, and the test looks at more than one bit. */
  lemma ConflictExactly(gear: seq<nat>, cfg: Config)
    requires |gear| == 256 && Generated(gear) && CutBits(cfg.avgSize) <= cfg.maxSize
    ensures Conflict(gear, cfg) <==>
            cfg.minSize > 0 && cfg.minSize + 1 < cfg.maxSize && CutBits(cfg.avgSize) >= 2
  {
    hide Generated, Weighted, Pow2, CutBits;
    var c, m := CutBits(cfg.avgSize), cfg.minSize;
    if x, u :| Disputed(gear, cfg, x, u) {
      assert m == 0 ==> x + u == u;
      if c <= 1 {
        LastByteDecides(gear, x, u, c);
      }
    }
    if m > 0 && m + 1 < cfg.maxSize && c >= 2 {
      var k := if c - 1 < cfg.maxSize - m - 1 then c - 1 else cfg.maxSize - m - 1;
      var x, u := WordsFor(gear, m, k, c);
      OddDisputes(gear, x, u, c);
      assert Disputed(gear, cfg, x, u);
    }
  }

  lemma {:induction false} LastByteDecides(gear: seq<nat>, x: Bytes, u: Bytes, c: nat)
    requires |gear| == 256 && c <= |u|
    ensures Weighted(gear, u) % Pow2(c) == 0 <==> Weighted(gear, x + u) % Pow2(c) == 0
  {
    hide Weighted, Pow2;
    WeightedAppend(gear, x, u);
    SelfDivides(Pow2(|u|));
    DivisibleDown(Pow2(|u|), c, |u|);
    DropsOut(Weighted(gear, x), Pow2(|u|), Weighted(gear, u), Pow2(c));
  }

  /** An average no larger than the maximum keeps the tested bits below the largest chunk. */
  lemma UsualSizes(cfg: Config)
    requires cfg.avgSize <= cfg.maxSize && cfg.maxSize > 0
    ensures CutBits(cfg.avgSize) <= cfg.maxSize
  {
    BitsBelow(cfg.avgSize);
  }

  lemma {:induction false} BitsBelow(n: int)
    ensures AvgBits(n) == 0 || AvgBits(n) <= n
    decreases n
  {
    if n > 1 {
      BitsBelow(n / 2);
    }
  }

  /** Exactly which chunk starts are local under the generator's table. */
  lemma LocalExactlyForTable(gear: seq<nat>, cfg: Config, o: nat, o': nat)
    requires |gear| == 256 && Generated(gear) && CutBits(cfg.avgSize) <= cfg.maxSize
    requires Sized(cfg) && o + cfg.maxSize < P62 && o' + cfg.maxSize < P62
    ensures (cfg.minSize == 0 || cfg.minSize + 1 >= cfg.maxSize || CutBits(cfg.avgSize) <= 1 ||
             (o + cfg.minSize >= 64 <==> o' + cfg.minSize >= 64)) <==>
            forall d: Bytes, d': Bytes | SameBehind(d, o, d', o') ::
              Boundary(gear, cfg, d, o) - o == Boundary(gear, cfg, d', o') - o'
  {
    hide Boundary, Conflict, CutBits, Generated;
    ConflictExactly(gear, cfg);
    LocalExactly(gear, cfg, o, o');
  }
}
