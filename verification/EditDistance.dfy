/** Edit distance between line lists, the meaning the diff algorithm is measured against. */
module EditDistance {

  type Line = string

  function Min(x: int, y: int): int { if x <= y then x else y }

  /** The diagonal move into (i, j): line i of the old list equals line j of the new one (counting from 1). */
  predicate Match(a: seq<Line>, b: seq<Line>, i: nat, j: nat) {
    0 < i <= |a| && 0 < j <= |b| && a[i - 1] == b[j - 1]
  }

  /** Least number of horizontal and vertical moves from (0, 0) to (i, j). The grid is extended
      past (|a|, |b|), where no diagonal move exists, because the frontier may step outside. */
  ghost function Dist(a: seq<Line>, b: seq<Line>, i: nat, j: nat): nat
    decreases i + j
  {
    if i == 0 then j
    else if j == 0 then i
    else if Match(a, b, i, j) then Dist(a, b, i - 1, j - 1)
    else 1 + Min(Dist(a, b, i - 1, j), Dist(a, b, i, j - 1))
  }

  lemma {:induction false} DistSteps(a: seq<Line>, b: seq<Line>, i: nat, j: nat)
    ensures -1 <= Dist(a, b, i + 1, j) - Dist(a, b, i, j) <= 1
    ensures -1 <= Dist(a, b, i, j + 1) - Dist(a, b, i, j) <= 1
    decreases i + j
  {
    if j > 0 { DistSteps(a, b, i, j - 1); }
    if i > 0 { DistSteps(a, b, i - 1, j); }
  }

  lemma DistMatch(a: seq<Line>, b: seq<Line>, i: nat, j: nat)
    requires Match(a, b, i + 1, j + 1)
    ensures Dist(a, b, i + 1, j + 1) == Dist(a, b, i, j)
  {
  }

  lemma {:induction false} DistParity(a: seq<Line>, b: seq<Line>, i: nat, j: nat)
    ensures (i + j - Dist(a, b, i, j)) % 2 == 0
    decreases i + j
  {
    if i > 0 && j > 0 {
      if Match(a, b, i, j) {
        DistParity(a, b, i - 1, j - 1);
      } else {
        DistParity(a, b, i - 1, j);
        DistParity(a, b, i, j - 1);
      }
    }
  }

  lemma {:induction false} DistBounds(a: seq<Line>, b: seq<Line>, i: nat, j: nat)
    ensures i - j <= Dist(a, b, i, j) && j - i <= Dist(a, b, i, j)
    ensures Dist(a, b, i, j) <= i + j
    decreases i + j
  {
    if i > 0 && j > 0 {
      DistBounds(a, b, i - 1, j - 1);
      DistBounds(a, b, i - 1, j);
      DistBounds(a, b, i, j - 1);
    }
  }

  /** Distance never drops along a diagonal. */
  lemma {:induction false} DistDiagonal(a: seq<Line>, b: seq<Line>, i: nat, j: nat, t: nat)
    ensures Dist(a, b, i, j) <= Dist(a, b, i + t, j + t)
    decreases t
  {
    if t > 0 {
      DistDiagonal(a, b, i, j, t - 1);
      DistSteps(a, b, i + t - 1, j + t - 1);
    }
  }

  /** Past the last line of either list every further step costs one. */
  lemma {:induction false} DistPastEnd(a: seq<Line>, b: seq<Line>, i: nat, j: nat)
    ensures j >= |b| ==> Dist(a, b, i, j + 1) == Dist(a, b, i, j) + 1
    ensures i >= |a| ==> Dist(a, b, i + 1, j) == Dist(a, b, i, j) + 1
    decreases i + j
  {
    if i > 0 {
      DistPastEnd(a, b, i - 1, j);
      DistSteps(a, b, i - 1, j);
    }
    if j > 0 {
      DistPastEnd(a, b, i, j - 1);
      DistSteps(a, b, i, j - 1);
    }
  }

  lemma {:induction false} DistOutside(a: seq<Line>, b: seq<Line>, s: nat, t: nat)
    ensures Dist(a, b, |a| + s, |b| + t) == Dist(a, b, |a|, |b|) + s + t
    decreases s + t
  {
    if s > 0 {
      DistOutside(a, b, s - 1, t);
      DistPastEnd(a, b, |a| + s - 1, |b| + t);
    } else if t > 0 {
      DistOutside(a, b, s, t - 1);
      DistPastEnd(a, b, |a| + s, |b| + t - 1);
    }
  }
}
