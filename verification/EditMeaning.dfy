/** What `Dist` measures: the fewest single-line insertions and deletions that turn one list into
    the other, and what a longest common subsequence leaves over. */
module EditMeaning {
  import opened EditDistance

  ghost function ListDist(a: seq<Line>, b: seq<Line>): nat {
    Dist(a, b, |a|, |b|)
  }

  lemma {:induction false} DistPrefix(a: seq<Line>, b: seq<Line>, a': seq<Line>, b': seq<Line>, i: nat, j: nat)
    requires i <= |a| && j <= |b|
    ensures Dist(a + a', b + b', i, j) == Dist(a, b, i, j)
    decreases i + j
  {
    if i > 0 && j > 0 {
      DistPrefix(a, b, a', b', i - 1, j - 1);
      DistPrefix(a, b, a', b', i - 1, j);
      DistPrefix(a, b, a', b', i, j - 1);
    }
  }

  /** The recursion on whole lists, by their last lines. */
  lemma ListDistUnfold(a: seq<Line>, b: seq<Line>, x: Line, y: Line)
    ensures x == y ==> ListDist(a + [x], b + [y]) == ListDist(a, b)
    ensures x != y ==> ListDist(a + [x], b + [y]) == 1 + Min(ListDist(a, b + [y]), ListDist(a + [x], b))
  {
    DistPrefix(a, b, [x], [y], |a|, |b|);
    DistPrefix(a, b + [y], [x], [], |a|, |b| + 1);
    DistPrefix(a + [x], b, [], [y], |a| + 1, |b|);
    assert b + [y] + [] == b + [y] && a + [x] + [] == a + [x];
  }

  lemma ListDistNil(a: seq<Line>)
    ensures ListDist(a, []) == |a| && ListDist([], a) == |a|
  {
  }

  lemma {:induction false} ListDistSelf(a: seq<Line>)
    ensures ListDist(a, a) == 0
  {
    if a != [] {
      var last := |a| - 1;
      assert a == a[..last] + [a[last]];
      ListDistUnfold(a[..last], a[..last], a[last], a[last]);
      ListDistSelf(a[..last]);
    }
  }

  /** t is s with one line removed at position p. */
  ghost predicate RemovesOne(s: seq<Line>, t: seq<Line>, p: nat) {
    p < |s| && t == s[..p] + s[p + 1..]
  }

  /** One line is inserted or deleted, at any position. */
  ghost predicate OneEdit(s: seq<Line>, t: seq<Line>) {
    (exists p: nat :: RemovesOne(s, t, p)) || (exists p: nat :: RemovesOne(t, s, p))
  }

  /** Exactly d single-line edits turn s into t. */
  ghost predicate Editable(s: seq<Line>, t: seq<Line>, d: nat)
    decreases d
  {
    if d == 0 then s == t
    else exists u :: OneEdit(s, u) && Editable(u, t, d - 1)
  }

  lemma {:induction false} RemovingShifts(s: seq<Line>, t: seq<Line>, p: nat, b: seq<Line>)
    requires RemovesOne(s, t, p)
    ensures -1 <= ListDist(s, b) - ListDist(t, b) <= 1
    decreases |s| + |b|
  {
    hide Dist;
    if b == [] {
      ListDistNil(s);
      ListDistNil(t);
    } else {
      var n, m := |s| - 1, |b| - 1;
      var x, y := s[n], b[m];
      var s', b' := s[..n], b[..m];
      assert s == s' + [x] && b == b' + [y];
      if p == n {
        assert t == s';
        LastStep(s', x, b);
      } else {
        var t' := s'[..p] + s'[p + 1..];
        assert t == t' + [x];
        ListDistUnfold(s', b', x, y);
        ListDistUnfold(t', b', x, y);
        RemovingShifts(s', t', p, b');
        RemovingShifts(s', t', p, b);
        RemovingShifts(s, t, p, b');
      }
    }
  }

  lemma LastStep(s: seq<Line>, x: Line, b: seq<Line>)
    ensures -1 <= ListDist(s + [x], b) - ListDist(s, b) <= 1
  {
    hide Dist;
    DistSteps(s + [x], b, |s|, |b|);
    DistPrefix(s, b, [x], [], |s|, |b|);
    assert b + [] == b;
  }

  /** No chain of single-line edits is shorter than the distance. */
  lemma {:induction false} AtLeastDist(s: seq<Line>, t: seq<Line>, d: nat)
    requires Editable(s, t, d)
    ensures ListDist(s, t) <= d
    decreases d
  {
    hide Dist;
    if d == 0 {
      ListDistSelf(s);
    } else {
      var u :| OneEdit(s, u) && Editable(u, t, d - 1);
      AtLeastDist(u, t, d - 1);
      if p: nat :| RemovesOne(s, u, p) {
        RemovingShifts(s, u, p, t);
      } else {
        var p: nat :| RemovesOne(u, s, p);
        RemovingShifts(u, s, p, t);
      }
    }
  }

  lemma OneEditAppend(s: seq<Line>, u: seq<Line>, x: Line)
    requires OneEdit(s, u)
    ensures OneEdit(s + [x], u + [x])
  {
    if p: nat :| RemovesOne(s, u, p) {
      assert RemovesOne(s + [x], u + [x], p);
    } else {
      var p: nat :| RemovesOne(u, s, p);
      assert RemovesOne(u + [x], s + [x], p);
    }
  }

  lemma {:induction false} EditableAppend(s: seq<Line>, t: seq<Line>, d: nat, x: Line)
    requires Editable(s, t, d)
    ensures Editable(s + [x], t + [x], d)
    decreases d
  {
    if d > 0 {
      var u :| OneEdit(s, u) && Editable(u, t, d - 1);
      EditableAppend(u, t, d - 1, x);
      OneEditAppend(s, u, x);
    }
  }

  lemma {:induction false} EditableThen(s: seq<Line>, t: seq<Line>, d: nat, w: seq<Line>)
    requires Editable(s, t, d) && OneEdit(t, w)
    ensures Editable(s, w, d + 1)
    decreases d
  {
    if d == 0 {
      assert Editable(w, w, 0);
    } else {
      var u :| OneEdit(s, u) && Editable(u, t, d - 1);
      EditableThen(u, t, d - 1, w);
    }
  }

  lemma DropLast(a: seq<Line>)
    requires a != []
    ensures OneEdit(a, a[..|a| - 1]) && OneEdit(a[..|a| - 1], a)
    ensures a == a[..|a| - 1] + [a[|a| - 1]]
  {
    assert RemovesOne(a, a[..|a| - 1], |a| - 1);
  }

  lemma EditableFirst(s: seq<Line>, u: seq<Line>, t: seq<Line>, d: nat)
    requires OneEdit(s, u) && Editable(u, t, d)
    ensures Editable(s, t, d + 1)
  {
  }

  /** The distance in terms of the lists without their last lines. */
  lemma ListDistLast(a: seq<Line>, b: seq<Line>)
    requires a != [] || b != []
    ensures var a', b' := if a == [] then a else a[..|a| - 1], if b == [] then b else b[..|b| - 1];
            if a == [] then ListDist(a, b) == ListDist(a, b') + 1
            else if b == [] then ListDist(a, b) == ListDist(a', b) + 1
            else if a[|a| - 1] == b[|b| - 1] then ListDist(a, b) == ListDist(a', b')
            else ListDist(a, b) == 1 + Min(ListDist(a', b), ListDist(a, b'))
  {
    hide Dist;
    if a == [] {
      ListDistNil(b);
      ListDistNil(b[..|b| - 1]);
    } else if b == [] {
      ListDistNil(a);
      ListDistNil(a[..|a| - 1]);
    } else {
      var n, m := |a| - 1, |b| - 1;
      assert a == a[..n] + [a[n]] && b == b[..m] + [b[m]];
      ListDistUnfold(a[..n], b[..m], a[n], b[m]);
    }
  }

  /** A chain of exactly that many single-line edits exists. */
  lemma {:induction false} DistSuffices(a: seq<Line>, b: seq<Line>)
    ensures Editable(a, b, ListDist(a, b))
    decreases |a| + |b|
  {
    hide Dist, OneEdit, Editable, ListDist;
    if a == [] && b == [] {
      EditableNil();
      return;
    }
    ListDistLast(a, b);
    var a', b' := if a == [] then a else a[..|a| - 1], if b == [] then b else b[..|b| - 1];
    if a != [] && b != [] && a[|a| - 1] == b[|b| - 1] {
      DropLast(a);
      DropLast(b);
      DistSuffices(a', b');
      EditableAppend(a', b', ListDist(a', b'), a[|a| - 1]);
    } else if b == [] || (a != [] && ListDist(a', b) <= ListDist(a, b')) {
      DropLast(a);
      DistSuffices(a', b);
      EditableFirst(a, a', b, ListDist(a', b));
    } else {
      DropLast(b);
      DistSuffices(a, b');
      EditableThen(a, b', ListDist(a, b'), b);
    }
  }

  lemma EditableNil()
    ensures Editable([], [], ListDist([], []))
  {
    ListDistNil([]);
  }

  /** The distance is the minimum number of single-line insertions and deletions. */
  lemma DistIsMinimal(a: seq<Line>, b: seq<Line>)
    ensures Editable(a, b, ListDist(a, b))
    ensures forall d: nat :: Editable(a, b, d) ==> ListDist(a, b) <= d
  {
    DistSuffices(a, b);
    forall d: nat | Editable(a, b, d)
      ensures ListDist(a, b) <= d
    {
      AtLeastDist(a, b, d);
    }
  }

  /** c is obtained from s by deleting lines. */
  ghost predicate Subsequence(c: seq<Line>, s: seq<Line>)
    decreases |s|
  {
    if c == [] then true
    else if s == [] then false
    else if c[|c| - 1] == s[|s| - 1] && Subsequence(c[..|c| - 1], s[..|s| - 1]) then true
    else Subsequence(c, s[..|s| - 1])
  }

  ghost predicate Common(c: seq<Line>, a: seq<Line>, b: seq<Line>) {
    Subsequence(c, a) && Subsequence(c, b)
  }

  lemma {:induction false} SubsequenceInit(c: seq<Line>, s: seq<Line>)
    requires Subsequence(c, s) && c != []
    ensures Subsequence(c[..|c| - 1], s)
    decreases |s|
  {
    var c' := c[..|c| - 1];
    var s' := s[..|s| - 1];
    if c[|c| - 1] == s[|s| - 1] && Subsequence(c', s') {
      SubsequenceGrow(c', s', s[|s| - 1]);
      assert s == s' + [s[|s| - 1]];
    } else {
      SubsequenceInit(c, s');
      SubsequenceGrow(c', s', s[|s| - 1]);
      assert s == s' + [s[|s| - 1]];
    }
  }

  lemma SubsequenceGrow(c: seq<Line>, s: seq<Line>, x: Line)
    requires Subsequence(c, s)
    ensures Subsequence(c, s + [x])
  {
    assert (s + [x])[..|s|] == s;
  }

  /** No common subsequence is longer than what the distance leaves unedited. */
  lemma {:induction false} CommonAtMost(c: seq<Line>, a: seq<Line>, b: seq<Line>)
    requires Common(c, a, b)
    ensures 2 * |c| <= |a| + |b| - ListDist(a, b)
    decreases |a| + |b|
  {
    hide Dist;
    if a == [] || b == [] {
      ListDistNil(a);
      ListDistNil(b);
    } else if c == [] {
      DistBounds(a, b, |a|, |b|);
    } else {
      var n, m := |a| - 1, |b| - 1;
      assert a == a[..n] + [a[n]] && b == b[..m] + [b[m]];
      ListDistUnfold(a[..n], b[..m], a[n], b[m]);
      var l := |c| - 1;
      if a[n] == b[m] {
        CommonInit(c, a);
        CommonInit(c, b);
        CommonAtMost(c[..l], a[..n], b[..m]);
      } else if !Subsequence(c, a[..n]) {
        CommonAtMost(c, a, b[..m]);
      } else {
        CommonAtMost(c, a[..n], b);
      }
    }
  }

  lemma CommonInit(c: seq<Line>, s: seq<Line>)
    requires Subsequence(c, s) && c != []
    ensures s != [] && Subsequence(c[..|c| - 1], s[..|s| - 1])
  {
    if !(c[|c| - 1] == s[|s| - 1] && Subsequence(c[..|c| - 1], s[..|s| - 1])) {
      SubsequenceInit(c, s[..|s| - 1]);
    }
  }

  /** And one of exactly that length exists. */
  lemma {:induction false} CommonExists(a: seq<Line>, b: seq<Line>) returns (c: seq<Line>)
    ensures Common(c, a, b) && 2 * |c| == |a| + |b| - ListDist(a, b)
    decreases |a| + |b|
  {
    hide Dist;
    ListDistNil(a);
    ListDistNil(b);
    if a == [] || b == [] {
      c := [];
    } else {
      var n, m := |a| - 1, |b| - 1;
      assert a == a[..n] + [a[n]] && b == b[..m] + [b[m]];
      ListDistUnfold(a[..n], b[..m], a[n], b[m]);
      if a[n] == b[m] {
        var c' := CommonExists(a[..n], b[..m]);
        c := c' + [a[n]];
        assert c[..|c'|] == c';
      } else if ListDist(a[..n], b) <= ListDist(a, b[..m]) {
        c := CommonExists(a[..n], b);
        SubsequenceGrow(c, a[..n], a[n]);
      } else {
        c := CommonExists(a, b[..m]);
        SubsequenceGrow(c, b[..m], b[m]);
      }
    }
  }

  /** n + m - 2 LCS: a common subsequence of that length exists and no longer one does. */
  lemma DistIsLcs(a: seq<Line>, b: seq<Line>) returns (lcs: seq<Line>)
    ensures Common(lcs, a, b) && forall c :: Common(c, a, b) ==> |c| <= |lcs|
    ensures ListDist(a, b) == |a| + |b| - 2 * |lcs|
  {
    lcs := CommonExists(a, b);
    forall c | Common(c, a, b)
      ensures |c| <= |lcs|
    {
      CommonAtMost(c, a, b);
    }
  }
}
