/** Splitting data at the boundaries the gear hash finds, and what they depend on. */
module Chunking {
  import opened Common
  import opened Codec
  import opened GearHash
  import opened FastCdc

  datatype Config = Config(minSize: nat, avgSize: int, maxSize: nat)

  /** Sizes for which offsets do not overflow. */
  predicate Sized(cfg: Config) {
    cfg.minSize < P62 && cfg.avgSize < P63 && cfg.maxSize < P62
  }

  /** With that many bytes left the next chunk is not empty. */
  predicate Advances(cfg: Config, left: nat) {
    cfg.maxSize > 0 || left <= cfg.minSize
  }

  predicate Addressable(data: Bytes) {
    |data| < P62
  }

  /** Where the window of 64 bytes before minEnd starts. `minEnd - 64` wraps around below zero, and
      then no byte is rolled in before the first test. */
  function WindowStart(offset: nat, minEnd: nat): (start: nat)
    requires offset <= minEnd < P63
    ensures offset <= start <= minEnd
  {
    var start := (minEnd + P64 - 64) % P64;
    if start < offset then offset else if start <= minEnd then start else minEnd
  }

  /** The first boundary at or behind pos: behind the first position whose hash passes the test. */
  function FirstCut(gear: seq<nat>, masks: seq<nat>, data: Bytes, start: nat, pos: nat, maxEnd: nat): nat
    requires |gear| == 256 && start <= pos && maxEnd <= |data|
    decreases maxEnd - pos
  {
    if pos >= maxEnd then maxEnd
    else if CutsAt(Rolled(gear, data[start..pos + 1]), masks) then pos + 1
    else FirstCut(gear, masks, data, start, pos + 1, maxEnd)
  }

  function Boundary(gear: seq<nat>, cfg: Config, data: Bytes, offset: nat): nat
    requires |gear| == 256 && Sized(cfg) && Addressable(data) && offset < |data|
  {
    var minEnd, maxEnd := offset + cfg.minSize, offset + cfg.maxSize;
    if minEnd >= |data| then |data|
    else FirstCut(gear, Masks(cfg.avgSize), data, WindowStart(offset, minEnd), minEnd,
                  if maxEnd > |data| then |data| else maxEnd)
  }

  /** Rolls in the window before minEnd. */
  method PrimeWindow(gear: array<nat>, data: Bytes, offset: nat, minEnd: nat) returns (rollingHash: nat)
    requires gear.Length == 256 && offset <= minEnd < |data| < P62
    ensures rollingHash == Rolled(gear[..], data[WindowStart(offset, minEnd)..minEnd])
  {
    rollingHash := 0;
    var windowStart := (minEnd + P64 - 64) % P64;
    if windowStart < offset {
      windowStart := offset;
    }
    ghost var start := WindowStart(offset, minEnd);
    var i := windowStart;
    while i < minEnd
      invariant start <= i && (i <= minEnd || start == minEnd)
      invariant rollingHash == Rolled(gear[..], data[start..if i <= minEnd then i else minEnd])
    {
      rollingHash := RollIn(gear, rollingHash, data, start, i);
      i := i + 1;
    }
  }

  method AnyMask(h: nat, masks: seq<nat>) returns (cut: bool)
    ensures cut == CutsAt(h, masks)
  {
    for m := 0 to |masks|
      invariant forall j :: 0 <= j < m ==> BitAnd(h, masks[j]) != 0
    {
      if BitAnd(h, masks[m]) == 0 {
        return true;
      }
    }
    cut := false;
  }

  method FindChunkBoundary(gear: array<nat>, cfg: Config, data: Bytes, offset: nat) returns (end: nat)
    requires gear.Length == 256 && Sized(cfg) && Addressable(data) && offset < |data|
    ensures end == Boundary(gear[..], cfg, data, offset)
  {
    hide Rolled, CutsAt, Masks, WindowStart;
    var minEnd := offset + cfg.minSize;
    var maxEnd := offset + cfg.maxSize;
    if minEnd >= |data| {
      return |data|;
    }
    if maxEnd > |data| {
      maxEnd := |data|;
    }
    var rollingHash := PrimeWindow(gear, data, offset, minEnd);
    ghost var start := WindowStart(offset, minEnd);
    var masks := ComputeMasks(cfg.avgSize);
    var pos := minEnd;
    while pos < maxEnd
      invariant minEnd <= pos && (pos <= maxEnd || pos == minEnd)
      invariant rollingHash == Rolled(gear[..], data[start..pos])
      invariant FirstCut(gear[..], masks, data, start, minEnd, maxEnd) ==
                FirstCut(gear[..], masks, data, start, pos, maxEnd)
    {
      rollingHash := RollIn(gear, rollingHash, data, start, pos);
      var cut := AnyMask(rollingHash, masks);
      if cut {
        return pos + 1;
      }
      pos := pos + 1;
    }
    end := maxEnd;
  }

  /** Slides one byte into the window. */
  method RollIn(gear: array<nat>, h: nat, data: Bytes, ghost start: nat, pos: nat) returns (h': nat)
    requires gear.Length == 256 && start <= pos < |data|
    requires h == Rolled(gear[..], data[start..pos])
    ensures h' == Rolled(gear[..], data[start..pos + 1])
  {
    assert data[start..pos + 1][..pos - start] == data[start..pos];
    h' := (2 * h + gear[data[pos]]) % P64;
  }

  lemma {:induction false} FirstCutRange(gear: seq<nat>, masks: seq<nat>, data: Bytes, start: nat, pos: nat,
                                         maxEnd: nat)
    requires |gear| == 256 && start <= pos && maxEnd <= |data|
    ensures var end := FirstCut(gear, masks, data, start, pos, maxEnd);
            if pos < maxEnd then pos < end <= maxEnd else end == maxEnd
    decreases maxEnd - pos
  {
    hide CutsAt, Rolled;
    if pos < maxEnd {
      FirstCutRange(gear, masks, data, start, pos + 1, maxEnd);
    }
  }

  function Max(a: int, b: int): int { if a >= b then a else b }

  /** Every chunk is at most maximal, one that does not end the data exceeds the minimum, and none is
      empty unless the maximum is zero and the minimum does not cover the rest. */
  lemma BoundaryRange(gear: seq<nat>, cfg: Config, data: Bytes, offset: nat)
    requires |gear| == 256 && Sized(cfg) && Addressable(data) && offset < |data|
    ensures var end := Boundary(gear, cfg, data, offset);
            offset <= end <= |data| && end - offset <= Max(cfg.minSize, cfg.maxSize) &&
            (offset < end <==> Advances(cfg, |data| - offset)) &&
            (end < |data| && cfg.minSize < cfg.maxSize ==> end - offset > cfg.minSize) &&
            (end < |data| && cfg.maxSize <= cfg.minSize ==> end - offset == cfg.maxSize)
  {
    hide FirstCut, WindowStart, Masks;
    var minEnd, maxEnd := offset + cfg.minSize, offset + cfg.maxSize;
    if minEnd < |data| {
      FirstCutRange(gear, Masks(cfg.avgSize), data, WindowStart(offset, minEnd), minEnd,
                    if maxEnd > |data| then |data| else maxEnd);
    }
  }

  // ---------------------------------------------------------------------------------------------
  // Which boundary it is
  // ---------------------------------------------------------------------------------------------

  ghost predicate Divides(gear: seq<nat>, cfg: Config, w: Bytes)
    requires |gear| == 256
  {
    Weighted(gear, w) % Pow2(CutBits(cfg.avgSize)) == 0
  }

  /** The cut test on any window is a divisibility of its weighted sum. */
  lemma CutIsDivisibility(gear: seq<nat>, cfg: Config, w: Bytes)
    requires |gear| == 256 && Sized(cfg)
    ensures CutsAt(Rolled(gear, w), Masks(cfg.avgSize)) <==> Divides(gear, cfg, w)
    ensures CutBits(cfg.avgSize) <= 62
  {
    hide Pow2, Rolled, Weighted, Masks, CutsAt;
    Pow2At64();
    AvgBitsSmall(cfg.avgSize, 62);
    RolledBelow(gear, w);
    AnyMaskIsSmallest(Rolled(gear, w), cfg.avgSize);
    RolledIsWeighted(gear, w);
    ModMod(Weighted(gear, w), CutBits(cfg.avgSize), 64);
  }

  /** No window from start to an end behind pos and short of `end` divides. */
  ghost predicate NoneDivides(gear: seq<nat>, cfg: Config, data: Bytes, start: nat, pos: nat, end: nat)
    requires |gear| == 256 && start <= pos && end <= |data|
  {
    forall e :: pos < e < end ==> !Divides(gear, cfg, data[start..e])
  }

  lemma {:induction false} FirstCutIs(gear: seq<nat>, cfg: Config, data: Bytes, start: nat, pos: nat, maxEnd: nat)
    requires |gear| == 256 && Sized(cfg) && start <= pos <= maxEnd <= |data|
    ensures var end := FirstCut(gear, Masks(cfg.avgSize), data, start, pos, maxEnd);
            pos <= end <= maxEnd && (end == pos ==> end == maxEnd) && NoneDivides(gear, cfg, data, start, pos, end) &&
            (end < maxEnd ==> Divides(gear, cfg, data[start..end]))
    decreases maxEnd - pos
  {
    hide CutsAt, Rolled, Masks, Divides;
    if pos < maxEnd {
      CutIsDivisibility(gear, cfg, data[start..pos + 1]);
      FirstCutIs(gear, cfg, data, start, pos + 1, maxEnd);
    }
  }

  /** Where the 64 bytes before the first test start: in the chunk, and nowhere if they would lie before
      the file. */
  function WindowOf(cfg: Config, offset: nat): (start: nat)
    ensures offset <= start <= offset + cfg.minSize
  {
    var minEnd := offset + cfg.minSize;
    if minEnd < 64 then minEnd else if cfg.minSize >= 64 then minEnd - 64 else offset
  }

  /** The boundary, by the sums of the bytes in the window: the end of the data if the minimum reaches
      it; else the first end behind the minimum at which the window's sum is divisible, but no further
      than the maximum or the data. */
  lemma BoundaryIsFirst(gear: seq<nat>, cfg: Config, data: Bytes, offset: nat)
    requires |gear| == 256 && Sized(cfg) && cfg.minSize <= cfg.maxSize && Addressable(data) && offset < |data|
    ensures var end := Boundary(gear, cfg, data, offset);
            var minEnd := offset + cfg.minSize;
            var maxEnd := if offset + cfg.maxSize > |data| then |data| else offset + cfg.maxSize;
            if minEnd >= |data| then end == |data|
            else
              minEnd <= end <= maxEnd && (end == minEnd ==> end == maxEnd) &&
              NoneDivides(gear, cfg, data, WindowOf(cfg, offset), minEnd, end) &&
              (end < maxEnd ==> Divides(gear, cfg, data[WindowOf(cfg, offset)..end]))
  {
    hide Masks, FirstCut, Divides, NoneDivides;
    var minEnd := offset + cfg.minSize;
    if minEnd < |data| {
      FirstCutIs(gear, cfg, data, WindowOf(cfg, offset), minEnd,
                 if offset + cfg.maxSize > |data| then |data| else offset + cfg.maxSize);
    }
  }

  // ---------------------------------------------------------------------------------------------
  // Locality
  // ---------------------------------------------------------------------------------------------

  lemma {:induction false} FirstCutMoves(gear: seq<nat>, masks: seq<nat>, d: Bytes, d': Bytes, o: nat, o': nat,
                                         start: nat, pos: nat, maxEnd: nat)
    requires |gear| == 256 && start <= pos && o + maxEnd <= |d| && o' + maxEnd <= |d'|
    requires d[o..o + maxEnd] == d'[o'..o' + maxEnd]
    ensures FirstCut(gear, masks, d, o + start, o + pos, o + maxEnd) - o ==
            FirstCut(gear, masks, d', o' + start, o' + pos, o' + maxEnd) - o'
    decreases maxEnd - pos
  {
    hide CutsAt, Rolled;
    if pos < maxEnd {
      SubSlice(d, o, maxEnd, start, pos + 1);
      SubSlice(d', o', maxEnd, start, pos + 1);
      FirstCutMoves(gear, masks, d, d', o, o', start, pos + 1, maxEnd);
    }
  }

  /** Whether the window before the first test starts inside the chunk; otherwise `minEnd - 64` wrapped
      around and no byte was rolled in. */
  predicate Primed(cfg: Config, offset: nat) {
    offset + cfg.minSize >= 64
  }

  /** Bytes x that a chunk starts with and bytes u behind them, short of the largest chunk, on which
      the cut test comes out differently with x in the window and without. */
  ghost predicate Disputed(gear: seq<nat>, cfg: Config, x: Bytes, u: Bytes)
    requires |gear| == 256
  {
    |x| == cfg.minSize && 1 <= |u| && |x| + |u| < cfg.maxSize && Divides(gear, cfg, u) != Divides(gear, cfg, x + u)
  }

  ghost predicate Conflict(gear: seq<nat>, cfg: Config)
    requires |gear| == 256
  {
    exists x, u :: Disputed(gear, cfg, x, u)
  }

  /** When chunks that start at o and at o' with the same bytes behind them have the same boundary. */
  ghost predicate LocalAt(gear: seq<nat>, cfg: Config, o: nat, o': nat)
    requires |gear| == 256
  {
    (Primed(cfg, o) <==> Primed(cfg, o')) || !Conflict(gear, cfg)
  }

  function StartIn(cfg: Config, primed: bool): (s: nat)
    ensures s <= cfg.minSize
  {
    if !primed then cfg.minSize else if cfg.minSize >= 64 then cfg.minSize - 64 else 0
  }

  lemma WindowStarts(cfg: Config, o: nat)
    requires o < P62 && cfg.minSize < P62
    ensures WindowStart(o, o + cfg.minSize) == o + StartIn(cfg, Primed(cfg, o))
  {
  }

  /** Without a conflict it does not matter whether the minimum's bytes were rolled in. */
  lemma {:induction false} FirstCutUndisputed(gear: seq<nat>, cfg: Config, data: Bytes, o: nat, p: nat, maxEnd: nat)
    requires |gear| == 256 && Sized(cfg) && !Conflict(gear, cfg)
    requires cfg.minSize <= p && maxEnd <= cfg.maxSize && o + maxEnd <= |data|
    ensures FirstCut(gear, Masks(cfg.avgSize), data, o, o + p, o + maxEnd) ==
            FirstCut(gear, Masks(cfg.avgSize), data, o + cfg.minSize, o + p, o + maxEnd)
    decreases maxEnd - p
  {
    hide CutsAt, Rolled, Masks, CutBits, Divides;
    if p < maxEnd {
      FirstCutUndisputed(gear, cfg, data, o, p + 1, maxEnd);
      if p + 1 < maxEnd {
        var x, u := data[o..o + cfg.minSize], data[o + cfg.minSize..o + p + 1];
        assert data[o..o + p + 1] == x + u;
        assert !Disputed(gear, cfg, x, u);
        CutIsDivisibility(gear, cfg, u);
        CutIsDivisibility(gear, cfg, x + u);
      }
    }
  }

  /** A boundary depends only on the bytes from the chunk's start on, wherever they lie. */
  lemma BoundaryMoves(gear: seq<nat>, cfg: Config, d: Bytes, d': Bytes, o: nat, o': nat)
    requires |gear| == 256 && Sized(cfg) && LocalAt(gear, cfg, o, o') && Addressable(d) && Addressable(d')
    requires o < |d| && o' < |d'| && d[o..] == d'[o'..]
    ensures Boundary(gear, cfg, d, o) - o == Boundary(gear, cfg, d', o') - o'
  {
    hide Masks, WindowStart, FirstCut, Conflict;
    var n, m := |d| - o, cfg.minSize;
    assert n == |d'| - o';
    if m < n {
      var maxEnd := if cfg.maxSize > n then n else cfg.maxSize;
      var masks := Masks(cfg.avgSize);
      assert d[o..o + maxEnd] == d[o..][..maxEnd] && d'[o'..o' + maxEnd] == d'[o'..][..maxEnd];
      WindowStarts(cfg, o);
      WindowStarts(cfg, o');
      FirstCutMoves(gear, masks, d, d', o, o', StartIn(cfg, Primed(cfg, o)), m, maxEnd);
      if Primed(cfg, o) != Primed(cfg, o') {
        FirstCutUndisputed(gear, cfg, d', o', m, maxEnd);
      }
    }
  }

  /** Inputs with a common prefix have the same boundary behind every chunk start whose largest
      chunk lies within the prefix, whatever the minimum size. */
  lemma BoundaryInPrefix(gear: seq<nat>, cfg: Config, d: Bytes, d': Bytes, o: nat, common: nat)
    requires |gear| == 256 && Sized(cfg) && cfg.minSize <= cfg.maxSize && Addressable(d) && Addressable(d')
    requires common <= |d| && common <= |d'| && d[..common] == d'[..common]
    requires o < common && o + cfg.maxSize <= common
    ensures Boundary(gear, cfg, d, o) == Boundary(gear, cfg, d', o)
  {
    hide Masks, WindowStart, CutsAt, Rolled;
    var minEnd, maxEnd := o + cfg.minSize, o + cfg.maxSize;
    if minEnd < maxEnd {
      assert d[..maxEnd] == d[..common][..maxEnd] && d'[..maxEnd] == d'[..common][..maxEnd];
      assert d[0..0 + maxEnd] == d[..maxEnd] && d'[0..0 + maxEnd] == d'[..maxEnd];
      FirstCutMoves(gear, Masks(cfg.avgSize), d, d', 0, 0, WindowStart(o, minEnd), minEnd, maxEnd);
    }
  }

  /** The cut test looks at the last few bytes only, once that many have been rolled in. */
  lemma CutDependsOnLastBytes(gear: seq<nat>, cfg: Config, data: Bytes, start: nat, pos: nat)
    requires |gear| == 256 && Sized(cfg) && pos < |data|
    requires start + CutBits(cfg.avgSize) <= pos + 1
    ensures var c := CutBits(cfg.avgSize);
            CutsAt(Rolled(gear, data[start..pos + 1]), Masks(cfg.avgSize)) <==>
            Weighted(gear, data[pos + 1 - c..pos + 1]) % Pow2(c) == 0
  {
    hide Pow2, Rolled, Weighted, Masks, CutsAt;
    var c := CutBits(cfg.avgSize);
    var x, w := data[start..pos + 1 - c], data[pos + 1 - c..pos + 1];
    assert data[start..pos + 1] == x + w;
    Pow2At64();
    AvgBitsSmall(cfg.avgSize, 62);
    Forgets(gear, x, w, c);
    RolledBelow(gear, data[start..pos + 1]);
    AnyMaskIsSmallest(Rolled(gear, data[start..pos + 1]), cfg.avgSize);
  }

  lemma RolledBelow(gear: seq<nat>, w: Bytes)
    requires |gear| == 256
    ensures Rolled(gear, w) < P64
  {
  }
}
