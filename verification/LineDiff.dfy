/** What an edit list means, and the greedy O(ND) search that produces one. */
module LineDiff {
  import opened EditDistance

  datatype Op = OpEqual | OpInsert | OpDelete

  datatype Edit = Edit(op: Op, oldStart: nat, oldEnd: nat, newStart: nat, newEnd: nat)

  /** From position (i, j) on, the edits are ordered, disjoint and in bounds, and the gaps
      between them (before the first and after the last included) are equal in old and new. */
  ghost predicate Covers(a: seq<Line>, b: seq<Line>, es: seq<Edit>, i: nat, j: nat)
    decreases |es|
  {
    i <= |a| && j <= |b| &&
    if es == [] then a[i..] == b[j..]
    else
      var e := es[0];
      i <= e.oldStart <= e.oldEnd <= |a| && j <= e.newStart <= e.newEnd <= |b| &&
      a[i..e.oldStart] == b[j..e.newStart] &&
      Covers(a, b, es[1..], e.oldEnd, e.newEnd)
  }

  /** The old ranges are ordered and everything is in bounds. */
  ghost predicate Fits(a: seq<Line>, b: seq<Line>, es: seq<Edit>, i: nat)
    decreases |es|
  {
    i <= |a| &&
    (es != [] ==> i <= es[0].oldStart <= es[0].oldEnd <= |a| && es[0].newStart <= es[0].newEnd <= |b| &&
                  Fits(a, b, es[1..], es[0].oldEnd))
  }

  /** Replaces each old range by the new lines the edit names, keeping everything between. */
  ghost function Patched(a: seq<Line>, b: seq<Line>, es: seq<Edit>, i: nat): seq<Line>
    requires Fits(a, b, es, i)
    decreases |es|
  {
    if es == [] then a[i..]
    else a[i..es[0].oldStart] + b[es[0].newStart..es[0].newEnd] + Patched(a, b, es[1..], es[0].oldEnd)
  }

  lemma {:induction false} CoversPatches(a: seq<Line>, b: seq<Line>, es: seq<Edit>, i: nat, j: nat)
    requires Covers(a, b, es, i, j)
    ensures Fits(a, b, es, i) && Patched(a, b, es, i) == b[j..]
    decreases |es|
  {
    if es != [] {
      CoversPatches(a, b, es[1..], es[0].oldEnd, es[0].newEnd);
      assert b[j..] == b[j..es[0].newStart] + b[es[0].newStart..es[0].newEnd] + b[es[0].newEnd..];
    }
  }

  /** Lines removed plus lines inserted. */
  ghost function Cost(es: seq<Edit>): int {
    if es == [] then 0
    else (es[0].oldEnd - es[0].oldStart) + (es[0].newEnd - es[0].newStart) + Cost(es[1..])
  }

  /** One edit inserts or deletes exactly one line. */
  predicate SingleLine(e: Edit) {
    (e.op.OpInsert? && e.oldEnd == e.oldStart && e.newEnd == e.newStart + 1) ||
    (e.op.OpDelete? && e.oldEnd == e.oldStart + 1 && e.newEnd == e.newStart)
  }

  /** Frontier entry for diagonal k; diagonals -max..max are stored from index 0. */
  function At(v: seq<int>, k: int, max: int): int
    requires 0 <= k + max < |v|
  {
    v[k + max]
  }

  /** x is the furthest point on diagonal k that d moves reach. */
  ghost predicate Furthest(a: seq<Line>, b: seq<Line>, d: int, k: int, x: int) {
    x >= 0 && x - k >= 0 && Dist(a, b, x, x - k) <= d && Dist(a, b, x + 1, x - k + 1) > d
  }

  /** The frontier of round d, known for the diagonals below hi. */
  ghost predicate Frontier(a: seq<Line>, b: seq<Line>, d: int, v: seq<int>, max: int, hi: int) {
    |v| == 2 * max + 1 && d <= max &&
    forall k :: -d <= k <= d && k < hi && (k + d) % 2 == 0 ==> Furthest(a, b, d, k, At(v, k, max))
  }

  /** Whether round d enters diagonal k from above (an insertion) rather than from the left. */
  predicate EntersDown(v: seq<int>, d: int, k: int, max: int)
    requires 0 <= d <= max && -d <= k <= d && |v| == 2 * max + 1 && max > 0
  {
    k == -d || (k != d && At(v, k - 1, max) < At(v, k + 1, max))
  }

  function StartX(v: seq<int>, d: int, k: int, max: int): int
    requires 0 <= d <= max && -d <= k <= d && |v| == 2 * max + 1 && max > 0
  {
    if EntersDown(v, d, k, max) then At(v, k + 1, max) else At(v, k - 1, max) + 1
  }

  /** The state round d starts from: the full frontier of round d - 1, or zeroes. */
  ghost predicate RoundStart(a: seq<Line>, b: seq<Line>, d: int, v: seq<int>, max: int) {
    0 <= d <= max && 0 < max && Frontier(a, b, d - 1, v, max, d) &&
    (d == 0 ==> forall p :: 0 <= p < |v| ==> v[p] == 0)
  }

  lemma StartReached(a: seq<Line>, b: seq<Line>, d: int, k: int, v: seq<int>, max: int)
    requires RoundStart(a, b, d, v, max)
    requires -d <= k <= d && (k + d) % 2 == 0
    ensures var x := StartX(v, d, k, max); x >= 0 && x - k >= 0 && Dist(a, b, x, x - k) <= d
  {
    hide Dist;
    if d == 0 {
      DistBounds(a, b, 0, 0);
    } else {
      if EntersDown(v, d, k, max) {
        var x := At(v, k + 1, max);
        assert Furthest(a, b, d - 1, k + 1, x);
        DistSteps(a, b, x, x - k - 1);
      } else {
        var x := At(v, k - 1, max);
        assert Furthest(a, b, d - 1, k - 1, x);
        DistSteps(a, b, x, x - k + 1);
      }
    }
  }

  /** From the right or from below, a point past the start costs more than d - 1 moves. */
  lemma BeyondFurthest(a: seq<Line>, b: seq<Line>, d: int, k: int, p: int, x: int)
    requires Furthest(a, b, d, k, p) && p < x
    ensures x - k >= 0 && Dist(a, b, x, x - k) > d
  {
    DistDiagonal(a, b, p + 1, p - k + 1, x - p - 1);
  }

  /** Once past the start point, a cell that is not a match costs more than d moves. */
  lemma BeyondStart(a: seq<Line>, b: seq<Line>, d: int, k: int, v: seq<int>, max: int, x: int)
    requires RoundStart(a, b, d, v, max)
    requires -d <= k <= d && (k + d) % 2 == 0
    requires x >= StartX(v, d, k, max) && x >= 0 && x - k >= 0
    requires !Match(a, b, x + 1, x - k + 1)
    ensures Dist(a, b, x + 1, x - k + 1) > d
  {
    var y := x - k;
    assert Dist(a, b, x, y + 1) >= d by {
      if k == -d {
        DistBounds(a, b, x, y + 1);
      } else {
        BeyondFurthest(a, b, d - 1, k - 1, At(v, k - 1, max), x);
      }
    }
    assert Dist(a, b, x + 1, y) >= d by {
      if k == d {
        DistBounds(a, b, x + 1, y);
      } else {
        BeyondFurthest(a, b, d - 1, k + 1, At(v, k + 1, max), x + 1);
      }
    }
  }

  /** The frontier snapshots taken before rounds 0..d. */
  ghost predicate Trace(a: seq<Line>, b: seq<Line>, trace: seq<seq<int>>, max: int) {
    forall e :: 0 <= e < |trace| ==> RoundStart(a, b, e, trace[e], max)
  }

  /** Round d has replaced the entries of its own parity below diagonal k and no others. */
  ghost predicate Midway(a: seq<Line>, b: seq<Line>, d: int, before: seq<int>, v: seq<int>, max: int, k: int) {
    RoundStart(a, b, d, before, max) && |v| == |before| &&
    Frontier(a, b, d, v, max, k) &&
    forall l :: -max <= l <= max && ((l + d) % 2 != 0 || l >= k) ==> At(v, l, max) == At(before, l, max)
  }

  lemma MidwayStep(a: seq<Line>, b: seq<Line>, d: int, before: seq<int>, v: seq<int>, max: int, k: int, x: int)
    requires Midway(a, b, d, before, v, max, k)
    requires -d <= k <= d && (k + d) % 2 == 0 && Furthest(a, b, d, k, x)
    ensures Midway(a, b, d, before, v[k + max := x], max, k + 2)
  {
    var w := v[k + max := x];
    forall l | -d <= l <= d && l < k + 2 && (l + d) % 2 == 0
      ensures Furthest(a, b, d, l, At(w, l, max))
    {
      if l != k {
        assert Furthest(a, b, d, l, At(v, l, max));
      }
    }
    forall l | -max <= l <= max && ((l + d) % 2 != 0 || l >= k + 2)
      ensures At(w, l, max) == At(before, l, max)
    {
      assert At(v, l, max) == At(before, l, max);
    }
  }

  /** On its own diagonal the corner is passed exactly when the frontier stands beyond both ends. */
  lemma {:induction false} CornerReached(a: seq<Line>, b: seq<Line>, d: int, k: int, x: int)
    requires Furthest(a, b, d, k, x) && Dist(a, b, |a|, |b|) >= d
    ensures x >= |a| && x - k >= |b| ==> x == |a| && x - k == |b| && Dist(a, b, |a|, |b|) == d
    ensures k == |a| - |b| && !(x >= |a| && x - k >= |b|) ==> Dist(a, b, |a|, |b|) > d
  {
    hide Dist;
    if x >= |a| && x - k >= |b| {
      DistOutside(a, b, x - |a|, x - k - |b|);
    } else if k == |a| - |b| {
      BeyondFurthest(a, b, d, k, x, |a|);
    }
  }

  /** A gap of equal lines extends backwards along the diagonal. */
  lemma CoversBack(a: seq<Line>, b: seq<Line>, es: seq<Edit>, i: nat, j: nat, t: nat)
    requires Covers(a, b, es, i, j) && t <= i && t <= j
    requires a[i - t..i] == b[j - t..j]
    ensures Covers(a, b, es, i - t, j - t)
  {
    var i', j' := if es == [] then |a| else es[0].oldStart, if es == [] then |b| else es[0].newStart;
    assert a[i - t..i'] == a[i - t..i] + a[i..i'];
    assert b[j - t..j'] == b[j - t..j] + b[j..j'];
  }

  /** One diagonal of one round: the furthest point d moves reach on diagonal k. */
  method Extend(a: seq<Line>, b: seq<Line>, d: int, k: int, v: array<int>, max: int, ghost before: seq<int>)
    returns (x: int)
    requires Midway(a, b, d, before, v[..], max, k)
    requires -d <= k <= d && (k + d) % 2 == 0
    ensures Furthest(a, b, d, k, x)
  {
    hide Dist;
    assert d < max ==> At(v[..], k + 1, max) == At(before, k + 1, max);
    if k == -d || (k != d && v[k - 1 + max] < v[k + 1 + max]) {
      x := v[k + 1 + max];
    } else {
      x := v[k - 1 + max] + 1;
    }
    assert x == StartX(before, d, k, max);
    StartReached(a, b, d, k, before, max);
    var y := x - k;
    ghost var x0 := x;
    while x < |a| && y < |b| && a[x] == b[y]
      invariant x0 <= x && 0 <= x && 0 <= y && y == x - k
      invariant Dist(a, b, x, y) <= d
    {
      DistMatch(a, b, x, y);
      x, y := x + 1, y + 1;
    }
    BeyondStart(a, b, d, k, before, max, x);
  }

  /** One round: every diagonal of parity d, stopping at the first one that passes both ends. */
  method Round(a: seq<Line>, b: seq<Line>, d: int, v: array<int>, max: int) returns (found: bool)
    requires max == |a| + |b| && RoundStart(a, b, d, v[..], max)
    requires Dist(a, b, |a|, |b|) >= d
    modifies v
    ensures found <==> Dist(a, b, |a|, |b|) == d
    ensures !found ==> Frontier(a, b, d, v[..], max, d + 1)
  {
    hide Dist;
    ghost var before := v[..];
    DistBounds(a, b, |a|, |b|);
    DistParity(a, b, |a|, |b|);
    var k := -d;
    while k <= d
      invariant -d <= k <= d + 2 && (k + d) % 2 == 0
      invariant Midway(a, b, d, before, v[..], max, k)
      invariant |a| - |b| < k ==> Dist(a, b, |a|, |b|) != d
    {
      var x := Extend(a, b, d, k, v, max, before);
      var y := x - k;
      MidwayStep(a, b, d, before, v[..], max, k, x);
      ghost var v' := v[..][k + max := x];
      v[k + max] := x;
      assert v[..] == v';
      CornerReached(a, b, d, k, x);
      if x >= |a| && y >= |b| {
        return true;
      }
      k := k + 2;
    }
    found := false;
  }

  /** The forward search: rounds of growing d, each on a snapshot kept for the way back. */
  method MyersDiff(a: seq<Line>, b: seq<Line>) returns (edits: seq<Edit>)
    ensures Covers(a, b, edits, 0, 0)
    ensures Cost(edits) == Dist(a, b, |a|, |b|)
    ensures a != [] && b != [] ==>
              |edits| == Dist(a, b, |a|, |b|) && forall i :: 0 <= i < |edits| ==> SingleLine(edits[i])
    ensures a == [] ==> edits == [Edit(OpInsert, 0, 0, 0, |b|)]
    ensures a != [] && b == [] ==> edits == [Edit(OpDelete, 0, |a|, 0, 0)]
  {
    var n, m := |a|, |b|;
    var max := n + m;
    var v := new int[2 * max + 1](_ => 0);
    var trace: seq<seq<int>> := [];
    if n == 0 {
      return [Edit(OpInsert, 0, 0, 0, m)];
    }
    if m == 0 {
      return [Edit(OpDelete, 0, n, 0, 0)];
    }
    hide Dist, Covers;
    DistBounds(a, b, n, m);
    var d := 0;
    while d <= max
      invariant 0 <= d == |trace| <= max + 1
      invariant d <= max ==> RoundStart(a, b, d, v[..], max)
      invariant Trace(a, b, trace, max)
      invariant Dist(a, b, n, m) >= d
    {
      trace := trace + [v[..]];
      var found := Round(a, b, d, v, max);
      if found {
        edits := Backtrack(trace, a, b, d, max);
        SingleLineCost(edits);
        return;
      }
      d := d + 1;
    }
    assert false;
  }

  /** A point on the run of matches that round e followed on diagonal k. */
  ghost predicate OnRun(a: seq<Line>, b: seq<Line>, e: int, k: int, v: seq<int>, max: int, x: int) {
    RoundStart(a, b, e, v, max) && 0 < e && -e <= k <= e && (k + e) % 2 == 0 &&
    0 <= x <= |a| && 0 <= x - k <= |b| && StartX(v, e, k, max) <= x && Dist(a, b, x, x - k) <= e
  }

  lemma RunEnd(a: seq<Line>, b: seq<Line>, e: int, k: int, v: seq<int>, max: int, x: int)
    requires RoundStart(a, b, e, v, max) && 0 < e && -e <= k <= e && (k + e) % 2 == 0
    requires x <= |a| && x - k <= |b| && Furthest(a, b, e, k, x)
    ensures OnRun(a, b, e, k, v, max, x)
  {
    var s := StartX(v, e, k, max);
    StartReached(a, b, e, k, v, max);
    if x < s {
      BeyondFurthest(a, b, e, k, x, s);
    }
  }

  lemma RunStep(a: seq<Line>, b: seq<Line>, e: int, k: int, v: seq<int>, max: int, x: int)
    requires OnRun(a, b, e, k, v, max, x) && StartX(v, e, k, max) < x
    ensures OnRun(a, b, e, k, v, max, x - 1)
    ensures a[x - 1] == b[x - 1 - k]
  {
    hide Dist;
    StartReached(a, b, e, k, v, max);
    DistDiagonal(a, b, x - 1, x - 1 - k, 1);
    if !Match(a, b, x, x - k) {
      BeyondStart(a, b, e, k, v, max, x - 1);
    }
  }

  /** The edits collected so far cover everything from (x, y), a frontier point of round e. */
  ghost predicate Pending(a: seq<Line>, b: seq<Line>, e: int, x: int, y: int, script: seq<Edit>) {
    0 <= e && 0 <= x <= |a| && 0 <= y <= |b| &&
    Furthest(a, b, e, x - y, x) && -e <= x - y <= e && (x - y + e) % 2 == 0 &&
    Covers(a, b, script, x, y)
  }

  function PrevK(v: seq<int>, e: int, k: int, max: int): int
    requires 0 <= e <= max && -e <= k <= e && |v| == 2 * max + 1 && max > 0
  {
    if EntersDown(v, e, k, max) then k + 1 else k - 1
  }

  /** The edit between the predecessor (prevX, prevY) and the point (x, y) where round e entered. */
  function EntryEdit(x: nat, y: nat, prevX: nat, prevY: nat): Edit {
    if x == prevX then Edit(OpInsert, x, x, prevY, y) else Edit(OpDelete, prevX, x, y, y)
  }

  lemma PendingBefore(a: seq<Line>, b: seq<Line>, e: int, k: int, v: seq<int>, max: int, x: int, script: seq<Edit>)
    requires OnRun(a, b, e, k, v, max, x) && x == StartX(v, e, k, max)
    requires Covers(a, b, script, x, x - k)
    ensures var prevK := PrevK(v, e, k, max);
            -max <= prevK <= max &&
            var prevX := At(v, prevK, max);
            0 <= prevX && 0 <= prevX - prevK &&
            var edit := EntryEdit(x, x - k, prevX, prevX - prevK);
            SingleLine(edit) && Pending(a, b, e - 1, prevX, prevX - prevK, [edit] + script)
  {
    hide Dist;
    var prevK := PrevK(v, e, k, max);
    var prevX := At(v, prevK, max);
    assert -(e - 1) <= prevK <= e - 1 && (prevK + e - 1) % 2 == 0;
    assert Furthest(a, b, e - 1, prevK, prevX);
    var edit := EntryEdit(x, x - k, prevX, prevX - prevK);
    assert ([edit] + script)[1..] == script;
    assert Covers(a, b, [edit] + script, prevX, prevX - prevK);
  }

  /** Follows the run of round e on diagonal k back to the point where round e entered it. */
  method WalkBack(a: seq<Line>, b: seq<Line>, e: int, k: int, v: seq<int>, max: int, x0: int, prevX: int, prevY: int,
                  ghost script: seq<Edit>)
    returns (x: int, y: int)
    requires OnRun(a, b, e, k, v, max, x0) && Covers(a, b, script, x0, x0 - k)
    requires prevX == At(v, PrevK(v, e, k, max), max) && prevY == prevX - PrevK(v, e, k, max)
    ensures x == StartX(v, e, k, max) && y == x - k
    ensures OnRun(a, b, e, k, v, max, x) && Covers(a, b, script, x, y)
  {
    hide Dist, Covers;
    x, y := x0, x0 - k;
    while x > prevX && y > prevY
      invariant OnRun(a, b, e, k, v, max, x) && y == x - k
      invariant Covers(a, b, script, x, y)
    {
      RunStep(a, b, e, k, v, max, x);
      CoversBack(a, b, script, x, y, 1);
      x, y := x - 1, y - 1;
    }
  }

  /** Undoes round e: follows the run of matches back, then the one edit that entered the diagonal. */
  method StepBack(a: seq<Line>, b: seq<Line>, e: int, x0: int, y0: int, v: seq<int>, max: int, ghost script: seq<Edit>)
    returns (edit: Edit, prevX: int, prevY: int)
    requires RoundStart(a, b, e, v, max) && 0 < e && Pending(a, b, e, x0, y0, script)
    ensures SingleLine(edit) && Pending(a, b, e - 1, prevX, prevY, [edit] + script)
  {
    hide Dist; hide Covers;
    var k := x0 - y0;
    RunEnd(a, b, e, k, v, max, x0);
    var prevK := if k == -e || (k != e && v[k - 1 + max] < v[k + 1 + max]) then k + 1 else k - 1;
    prevX := v[prevK + max];
    prevY := prevX - prevK;
    var x, y := WalkBack(a, b, e, k, v, max, x0, prevX, prevY, script);
    PendingBefore(a, b, e, k, v, max, x, script);
    edit := EntryEdit(x, y, prevX, prevY);
  }

  /** Reads the choices of the forward search back from the snapshots, one edit per round. */
  method Backtrack(trace: seq<seq<int>>, a: seq<Line>, b: seq<Line>, d: int, max: int) returns (edits: seq<Edit>)
    requires a != [] && b != [] && max == |a| + |b|
    requires |trace| == d + 1 && Trace(a, b, trace, max)
    requires d == Dist(a, b, |a|, |b|)
    ensures |edits| == d && forall i :: 0 <= i < |edits| ==> SingleLine(edits[i])
    ensures Covers(a, b, edits, 0, 0)
  {
    hide Dist;
    edits := [];
    var x, y := |a|, |b|;
    var e := d;
    CornerIsFurthest(a, b);
    ghost var script: seq<Edit> := [];
    while e > 0
      invariant 0 <= e <= d && |script| == d - e
      invariant Pending(a, b, e, x, y, script)
      invariant Reversed(edits, script)
      invariant forall i :: 0 <= i < |script| ==> SingleLine(script[i])
    {
      var edit;
      edit, x, y := StepBack(a, b, e, x, y, trace[e], max, script);
      edits := edits + [edit];
      script := [edit] + script;
      e := e - 1;
    }
    InitialRun(a, b, x);
    CoversBack(a, b, script, x, y, x);
    edits := Reverse(edits, script);
  }

  lemma {:induction false} SingleLineCost(es: seq<Edit>)
    requires forall i :: 0 <= i < |es| ==> SingleLine(es[i])
    ensures Cost(es) == |es|
  {
    if es != [] {
      SingleLineCost(es[1..]);
    }
  }

  lemma {:induction false} CornerIsFurthest(a: seq<Line>, b: seq<Line>)
    ensures var d: int := Dist(a, b, |a|, |b|);
            Furthest(a, b, d, |a| - |b|, |a|) && -d <= |a| - |b| <= d && (|a| - |b| + d) % 2 == 0
  {
    hide Dist;
    DistOutside(a, b, 1, 1);
    DistBounds(a, b, |a|, |b|);
    DistParity(a, b, |a|, |b|);
  }

  /** Without any move only equal lines are passed. */
  lemma {:induction false} InitialRun(a: seq<Line>, b: seq<Line>, x: nat)
    requires x <= |a| && x <= |b| && Dist(a, b, x, x) <= 0
    ensures a[..x] == b[..x]
  {
    if x > 0 {
      DistDiagonal(a, b, x - 1, x - 1, 1);
      InitialRun(a, b, x - 1);
      assert a[..x] == a[..x - 1] + [a[x - 1]];
    }
  }

  ghost predicate Reversed<T(!new)>(s: seq<T>, t: seq<T>) {
    |s| == |t| && forall i :: 0 <= i < |s| ==> s[i] == t[|s| - 1 - i]
  }

  method Reverse<T(!new)>(s: seq<T>, ghost t: seq<T>) returns (r: seq<T>)
    requires Reversed(s, t)
    ensures r == t
  {
    r := s;
    var i, j := 0, |r| - 1;
    while i < j
      invariant 0 <= i <= j + 1 && i + j == |r| - 1 && |r| == |t|
      invariant forall p :: 0 <= p < |r| && (p < i || p > j) ==> r[p] == t[p]
      invariant forall p :: i <= p <= j ==> r[p] == t[|r| - 1 - p]
    {
      r := r[i := r[j]][j := r[i]];
      i, j := i + 1, j - 1;
    }
  }
}
