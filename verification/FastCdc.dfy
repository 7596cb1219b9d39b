/** Content-defined chunking with the gear hash. */
module FastCdc {
  import opened Common
  import opened Codec
  import opened GearHash

  ghost predicate Table(gear: seq<nat>) {
    |gear| == 256
  }

  /** One step of the table's generator. */
  function NextState(state: nat): nat {
    (state * 6364136223846793005 + 1442695040888963407) % P64
  }

  function StateAfter(i: nat): nat {
    if i == 0 then 0x123456789ABCDEF0 else NextState(StateAfter(i - 1))
  }

  lemma NextIs(state: nat, quotient: nat, next: nat)
    requires next < P64 && state * 6364136223846793005 + 1442695040888963407 == quotient * P64 + next
    ensures NextState(state) == next
  {
    DivModUnique(state * 6364136223846793005 + 1442695040888963407, P64, quotient, next);
  }

  /** The table's first entries; the seed and three of them leave no other multiplier and increment. */
  lemma FirstEntries()
    ensures StateAfter(0) == 1311768467463790320
    ensures StateAfter(1) == 11664487699085246847
    ensures StateAfter(2) == 1947774572717245858
    ensures StateAfter(3) == 5513580664176860361
  {
    hide NextState;
    NextIs(1311768467463790320, 452560798140216385, 11664487699085246847);
    NextIs(11664487699085246847, 4024254274994967774, 1947774572717245858);
    NextIs(1947774572717245858, 671983232628259546, 5513580664176860361);
  }

  method InitGearTable() returns (table: array<nat>)
    ensures fresh(table) && table.Length == 256
    ensures forall i :: 0 <= i < 256 ==> table[i] == StateAfter(i + 1)
    ensures table[0] == 11664487699085246847 && table[1] == 1947774572717245858 && table[2] == 5513580664176860361
  {
    FirstEntries();
    table := new nat[256];
    var state := 0x123456789ABCDEF0;
    for i := 0 to 256
      invariant state == StateAfter(i)
      invariant forall j :: 0 <= j < i ==> table[j] == StateAfter(j + 1)
    {
      state := (state * 6364136223846793005 + 1442695040888963407) % P64;
      table[i] := state;
    }
  }

  // ---------------------------------------------------------------------------------------------
  // The rolling hash
  // ---------------------------------------------------------------------------------------------

  function Roll(gear: seq<nat>, h: nat, b: Byte): nat
    requires |gear| == 256
  {
    (2 * h + gear[b]) % P64
  }

  /** The hash after rolling in the bytes of w from zero. */
  function Rolled(gear: seq<nat>, w: Bytes): nat
    requires |gear| == 256
  {
    if w == [] then 0 else Roll(gear, Rolled(gear, w[..|w| - 1]), w[|w| - 1])
  }

  /** The sum of the bytes' table entries, each doubled once per byte behind it. */
  ghost function Weighted(gear: seq<nat>, w: Bytes): nat
    requires |gear| == 256
  {
    if w == [] then 0 else gear[w[0]] * Pow2(|w| - 1) + Weighted(gear, w[1..])
  }

  lemma {:induction false} WeightedAppend(gear: seq<nat>, x: Bytes, w: Bytes)
    requires |gear| == 256
    ensures Weighted(gear, x + w) == Weighted(gear, x) * Pow2(|w|) + Weighted(gear, w)
    decreases |x|
  {
    hide Pow2;
    if x == [] {
      assert x + w == w;
    } else {
      var g, p := gear[x[0]], Pow2(|x| - 1);
      assert (x + w)[1..] == x[1..] + w;
      WeightedAppend(gear, x[1..], w);
      Pow2Sum(|x| - 1, |w|);
      Assoc(g, p, Pow2(|w|));
      Distribute(g * p, Weighted(gear, x[1..]), Pow2(|w|));
    }
  }

  lemma DoubleModulo(h: nat, g: nat)
    ensures (2 * (h % P64) + g) % P64 == (2 * h + g) % P64
  {
    var q, r := h / P64, h % P64;
    var v := 2 * r + g;
    DivModUnique(2 * h + g, P64, 2 * q + v / P64, v % P64);
  }

  lemma {:induction false} RolledIsWeighted(gear: seq<nat>, w: Bytes)
    requires |gear| == 256
    ensures Rolled(gear, w) == Weighted(gear, w) % P64
    decreases |w|
  {
    if w != [] {
      var init, last := w[..|w| - 1], w[|w| - 1];
      assert w == init + [last];
      RolledIsWeighted(gear, init);
      WeightedAppend(gear, init, [last]);
      assert Weighted(gear, [last]) == gear[last] * Pow2(0) + Weighted(gear, []);
      assert Pow2(1) == 2 * Pow2(0);
      DoubleModulo(Weighted(gear, init), gear[last]);
    }
  }

  lemma DropsOut(x: nat, p: nat, y: nat, d: nat)
    requires p > 0 && d > 0 && p % d == 0
    ensures (x * p + y) % d == y % d
  {
    var t := p / d;
    assert p == t * d;
    Assoc(x, t, d);
    Distribute(x * t, y / d, d);
    DivModUnique(x * p + y, d, x * t + y / d, y % d);
  }

  /** Modulo 2^k only the last k bytes matter; in particular 64 bytes determine the whole hash. */
  lemma Forgets(gear: seq<nat>, x: Bytes, w: Bytes, k: nat)
    requires |gear| == 256 && k <= |w| && k <= 64
    ensures Rolled(gear, x + w) % Pow2(k) == Weighted(gear, w) % Pow2(k)
  {
    hide Pow2, Weighted, Rolled;
    RolledIsWeighted(gear, x + w);
    Pow2At64();
    ModMod(Weighted(gear, x + w), k, 64);
    WeightedAppend(gear, x, w);
    SelfDivides(Pow2(|w|));
    DivisibleDown(Pow2(|w|), k, |w|);
    DropsOut(Weighted(gear, x), Pow2(|w|), Weighted(gear, w), Pow2(k));
  }

  lemma SelfDivides(p: nat)
    requires p > 0
    ensures p % p == 0
  {
  }

  // ---------------------------------------------------------------------------------------------
  // The masks
  // ---------------------------------------------------------------------------------------------

  /** Position of the highest set bit; sizes up to one give zero. */
  function AvgBits(n: int): nat
    decreases n
  {
    if n <= 1 then 0 else 1 + AvgBits(n / 2)
  }

  /** `(1 << count) - 1` on 64-bit words: a shift by 64 or more gives zero. */
  function LowMask(count: nat): nat {
    ((if count < 64 then Pow2(count) else 0) + P64 - 1) % P64
  }

  /** The three masks; the subtractions in the shift counts wrap around. */
  function Masks(avgSize: int): (m: seq<nat>)
    ensures |m| == 3
  {
    var b := AvgBits(avgSize);
    [LowMask((b + 1) % P64), LowMask((b + P64 - 1) % P64), LowMask((b + P64 - 3) % P64)]
  }

  /** The number of low bits the cut test really looks at. */
  function CutBits(avgSize: int): nat {
    var b := AvgBits(avgSize);
    if b >= 3 then b - 3 else if b >= 1 then b - 1 else 1
  }

  method ComputeMasks(avgSize: int) returns (masks: seq<nat>)
    ensures masks == Masks(avgSize)
  {
    var avgBits, n := 0, avgSize;
    while n > 1
      invariant avgBits + AvgBits(n) == AvgBits(avgSize)
      decreases n
    {
      avgBits := avgBits + 1;
      n := n / 2;
    }
    masks := [LowMask((avgBits + 1) % P64), LowMask((avgBits + P64 - 1) % P64), LowMask((avgBits + P64 - 3) % P64)];
  }

  /** The chunker cuts behind a position if any mask clears the hash. */
  predicate CutsAt(h: nat, masks: seq<nat>) {
    exists i :: 0 <= i < |masks| && BitAnd(h, masks[i]) == 0
  }

  lemma {:induction false} AvgBitsRange(n: int)
    ensures n >= 1 ==> Pow2(AvgBits(n)) <= n < Pow2(AvgBits(n) + 1)
    decreases n
  {
    if n > 1 {
      AvgBitsRange(n / 2);
    }
  }

  lemma {:induction false} AvgBitsSmall(n: int, k: nat)
    requires n < Pow2(k + 1)
    ensures AvgBits(n) <= k
    decreases k
  {
    if n > 1 && k > 0 {
      AvgBitsSmall(n / 2, k - 1);
    }
  }

  lemma MaskTest(h: nat, count: nat)
    requires h < P64
    ensures BitAnd(h, LowMask(count)) == h % Pow2(if count < 64 then count else 64)
  {
    Pow2At64();
    if count < 64 {
      Pow2Below(count);
      assert LowMask(count) == Pow2(count) - 1;
      AndLowMask(h, count);
    } else {
      AndLowMask(h, 64);
    }
  }

  lemma Pow2Below(count: nat)
    requires count < 64
    ensures Pow2(count) < P64
  {
    hide Pow2;
    Pow2At64();
    Pow2Sum(64 - count, count);
    Pow2Grows(64 - count);
    AtLeastTwice(Pow2(64 - count), Pow2(count));
  }

  lemma Pow2Grows(k: nat)
    requires k > 0
    ensures Pow2(k) >= 2
  {
  }

  lemma AtLeastTwice(k: int, d: int)
    requires k >= 2 && d > 0
    ensures k * d > d
  {
  }

  /** The shift counts as 64-bit words. */
  lemma ShiftCounts(b: nat)
    requires b <= 62
    ensures (b + 1) % P64 == b + 1
    ensures (b + P64 - 1) % P64 == if b >= 1 then b - 1 else P64 - 1
    ensures (b + P64 - 3) % P64 == if b >= 3 then b - 3 else b + P64 - 3
  {
  }

  lemma MaskModuli(h: nat, avgSize: int)
    requires h < P64 && avgSize < P63
    ensures var b, m := AvgBits(avgSize), Masks(avgSize);
            BitAnd(h, m[0]) == h % Pow2(b + 1) &&
            BitAnd(h, m[1]) == h % Pow2(if b >= 1 then b - 1 else 64) &&
            BitAnd(h, m[2]) == h % Pow2(if b >= 3 then b - 3 else 64)
  {
    hide Pow2, BitAnd, LowMask, AvgBits;
    var b := AvgBits(avgSize);
    assert b <= 62 by {
      Pow2At64();
      AvgBitsSmall(avgSize, 62);
    }
    ShiftCounts(b);
    MaskTest(h, b + 1);
    MaskTest(h, (b + P64 - 1) % P64);
    MaskTest(h, (b + P64 - 3) % P64);
  }

  /** The three masks are nested: testing them all is testing the smallest one. */
  lemma AnyMaskIsSmallest(h: nat, avgSize: int)
    requires h < P64 && avgSize < P63
    ensures CutsAt(h, Masks(avgSize)) <==> h % Pow2(CutBits(avgSize)) == 0
  {
    hide Pow2, BitAnd, Masks, AvgBits;
    var b, m, c := AvgBits(avgSize), Masks(avgSize), CutBits(avgSize);
    MaskModuli(h, avgSize);
    if i :| 0 <= i < 3 && BitAnd(h, m[i]) == 0 {
      var bits := if i == 0 then b + 1 else if i == 1 && b >= 1 then b - 1 else if i == 2 && b >= 3 then b - 3 else 64;
      DivisibleDown(h, c, bits);
    }
    if h % Pow2(c) == 0 {
      var i := if b >= 3 then 2 else if b >= 1 then 1 else 0;
      assert BitAnd(h, m[i]) == 0;
    }
  }
}
