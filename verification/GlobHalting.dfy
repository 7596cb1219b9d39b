/** For which patterns the matching loop stops on every name, and the loop itself. */
module GlobHalting {
  import opened Glob

  /** Every `**` is followed, at once or after a single `?`, by another star. */
  predicate SafeStars(p: string, px: nat)
    requires px <= |p|
    decreases |p| - px
  {
    if px == |p| then true
    else if p[px] != '*' then SafeStars(p, px + 1)
    else
      var r := AfterStar(p, px);
      (DoubleStar(p, px) ==> StarNear(p, r)) && SafeStars(p, r)
  }

  predicate StarNear(p: string, r: nat) {
    (r < |p| && p[r] == '*') || (r + 1 < |p| && p[r] == '?' && p[r + 1] == '*')
  }

  ghost predicate HaltsFrom(p: string, name: string, s: State) {
    exists n: nat :: Run(p, name, s, n).Some?
  }

  ghost predicate AtStar(p: string, s: State) {
    s.px < |p| && p[s.px] == '*'
  }

  /** The states the loop visits on a safe pattern. */
  ghost predicate Live(p: string, name: string, s: State) {
    s.px <= |p| && s.nx <= |name| && SafeStars(p, s.px) &&
    (s.nextNx == 0 || AtStar(p, s) || BehindDouble(p, s) || BehindSingle(p, s))
  }

  ghost predicate BehindDouble(p: string, s: State) {
    s.px + 1 < |p| && p[s.px] == '?' && p[s.px + 1] == '*' && s.nextNx == s.nx + 1
  }

  ghost predicate BehindSingle(p: string, s: State) {
    s.nextPx < s.px <= |p| && p[s.nextPx] == '*' && !DoubleStar(p, s.nextPx) && SafeStars(p, s.nextPx) &&
    0 < s.nextNx <= s.nx + 1
  }

  /** The star that governs the state, and the name position it is tried at. */
  ghost function Governing(p: string, s: State): int {
    if AtStar(p, s) || BehindDouble(p, s) then s.px
    else if s.nextNx == 0 then -1
    else s.nextPx
  }

  ghost function Base(p: string, s: State): int {
    if AtStar(p, s) || BehindDouble(p, s) || s.nextNx == 0 then s.nx else s.nextNx - 1
  }

  lemma LiveStep(p: string, name: string, s: State)
    requires Live(p, name, s) && Step(p, name, s).Continue?
    ensures var s' := Step(p, name, s).state;
            Live(p, name, s') && Base(p, s') <= |name| + 1 &&
            (Governing(p, s') > Governing(p, s) ||
             (Governing(p, s') == Governing(p, s) &&
              (Governing(p, s) == -1 || Base(p, s') >= Base(p, s)) &&
              (s'.px > s.px || (Governing(p, s) != -1 && Base(p, s') > Base(p, s)))))
  {
    var s' := Step(p, name, s).state;
    if AtStar(p, s) {
      var r := AfterStar(p, s.px);
      if !DoubleStar(p, s.px) {
        assert BehindSingle(p, s');
      }
    }
  }

  lemma HaltsOneEarlier(p: string, name: string, s: State, s': State)
    requires Step(p, name, s) == Continue(s') && HaltsFrom(p, name, s')
    ensures HaltsFrom(p, name, s)
  {
    var n: nat :| Run(p, name, s', n).Some?;
    assert Run(p, name, s, n + 1).Some?;
  }

  lemma {:induction false} LiveHalts(p: string, name: string, s: State)
    requires Live(p, name, s)
    ensures HaltsFrom(p, name, s)
    decreases |p| - Governing(p, s),
              if Governing(p, s) == -1 then 0 else |name| + 1 - Base(p, s),
              |p| - s.px
  {
    match Step(p, name, s)
    case Answer(_) => assert Run(p, name, s, 1).Some?;
    case Continue(s') =>
      LiveStep(p, name, s);
      LiveHalts(p, name, s');
      HaltsOneEarlier(p, name, s, s');
  }

  // ---------------------------------------------------------------------------------------------
  // Every other pattern loops forever on some name
  // ---------------------------------------------------------------------------------------------

  ghost predicate Never(p: string, name: string, s: State) {
    forall n: nat :: Run(p, name, s, n).None?
  }

  lemma NeverOneEarlier(p: string, name: string, s: State, s': State)
    requires Step(p, name, s) == Continue(s') && Never(p, name, s')
    ensures Never(p, name, s)
  {
    forall n: nat
      ensures Run(p, name, s, n).None?
    {
      if n > 0 {
        assert Run(p, name, s', n - 1).None?;
      }
    }
  }

  /** Tried at name position at, the segment behind r gets stuck f bytes in. */
  ghost predicate Stuck(p: string, r: nat, f: nat, name: string, at: nat) {
    Consumed(p, r, f, name, at) &&
    (if r + f == |p| then at + f < |name|
     else p[r + f] != '*' && (at + f == |name| || (p[r + f] != '?' && name[at + f] != p[r + f])))
  }

  /** Behind `**` the retry position never moves: stuck there once, stuck there forever. */
  lemma {:induction false} RetriesForever(p: string, name: string, r: nat, next: nat,
                                          f: nat, at: nat, f': nat, i: nat, n: nat)
    requires 0 < next <= |name| && i <= f
    requires Stuck(p, r, f, name, at) && Stuck(p, r, f', name, next)
    ensures Run(p, name, State(r + i, at + i, r, next), n).None?
    decreases n
  {
    if n > 0 {
      if i < f {
        assert p[r + i] != '*';
        RetriesForever(p, name, r, next, f, at, f', i + 1, n - 1);
      } else {
        assert Step(p, name, State(r + i, at + i, r, next)) == Continue(State(r, next, r, next));
        RetriesForever(p, name, r, next, f', next, f', 0, n - 1);
      }
    }
  }

  function Fill(c: char, n: nat): (s: string)
    ensures |s| == n && forall i :: 0 <= i < n ==> s[i] == c
  {
    seq(n, _ => c)
  }

  function OtherThan(c: char): (d: char)
    ensures d != c
  {
    if c == 'a' then 'b' else 'a'
  }

  lemma StuckTail(p: string, r: nat, base: string) returns (tail: string, f: nat, f': nat)
    requires r <= |p| && !StarNear(p, r)
    ensures tail != []
    ensures Stuck(p, r, f, base + tail, |base|) && Stuck(p, r, f', base + tail, |base| + 1)
  {
    var e := r;
    while e < |p| && p[e] == '?'
      invariant r <= e <= |p| && forall i :: r <= i < e ==> p[i] == '?'
    {
      e := e + 1;
    }
    if e == |p| {
      tail, f, f' := Fill('a', e - r + 2), e - r, e - r;
    } else if p[e] == '*' {
      tail, f, f' := Fill('a', e - r - 1), e - r - 1, e - r - 2;
    } else {
      tail, f, f' := Fill(OtherThan(p[e]), e - r + 2), e - r, e - r;
    }
  }

  /** From an unsafe position on, some continuation of the name keeps the loop running forever. */
  lemma {:induction false} Diverges(p: string, px: nat, base: string, nextPx: nat, nextNx: nat) returns (tail: string)
    requires px <= |p| && !SafeStars(p, px)
    ensures Never(p, base + tail, State(px, |base|, nextPx, nextNx))
    decreases |p| - px
  {
    var s := State(px, |base|, nextPx, nextNx);
    if p[px] != '*' {
      var c := if p[px] == '?' then 'a' else p[px];
      var rest := Diverges(p, px + 1, base + [c], nextPx, nextNx);
      tail := [c] + rest;
      assert base + tail == base + [c] + rest;
      NeverOneEarlier(p, base + tail, s, State(px + 1, |base| + 1, nextPx, nextNx));
    } else {
      var r := AfterStar(p, px);
      var s' := State(r, |base|, if DoubleStar(p, px) then r else px, |base| + 1);
      if DoubleStar(p, px) && !StarNear(p, r) {
        var f, f';
        tail, f, f' := StuckTail(p, r, base);
        forall n: nat
          ensures Run(p, base + tail, s', n).None?
        {
          RetriesForever(p, base + tail, r, |base| + 1, f, |base|, f', 0, n);
        }
      } else {
        tail := Diverges(p, r, base, s'.nextPx, s'.nextNx);
      }
      NeverOneEarlier(p, base + tail, s, s');
    }
  }

  /** The loop stops on every name exactly for the safe patterns. */
  lemma HaltsExactlyOnSafe(p: string)
    ensures SafeStars(p, 0) <==> forall name :: Halts(p, name)
  {
    if SafeStars(p, 0) {
      forall name
        ensures Halts(p, name)
      {
        LiveHalts(p, name, Start);
      }
    } else {
      var name := Diverges(p, 0, "", 0, 0);
      assert "" + name == name;
      assert !Halts(p, name);
    }
  }

  ghost predicate NoAdjacentStars(p: string) {
    forall i :: 0 <= i < |p| - 1 && p[i] == '*' ==> p[i + 1] != '*'
  }

  lemma {:induction false} NoAdjacentIsSafe(p: string, px: nat)
    requires NoAdjacentStars(p) && px <= |p|
    ensures SafeStars(p, px)
    decreases |p| - px
  {
    if px < |p| {
      NoAdjacentIsSafe(p, px + 1);
    }
  }

  /** The smallest witness: `**` and a byte, against a name that only ends in that byte. */
  lemma DoubleStarLoops()
    ensures !SafeStars("**a", 0) && Matches("**a", "bba") && Never("**a", "bba", Start)
  {
    var p, name := "**a", "bba";
    assert MatchesFrom(p, 3, name, 3);
    assert AfterStar(p, 0) == 2 && MatchesFrom(p, 2, name, 2);
    assert MatchesFrom(p, 0, name, 0);
    MatchesIsFrom(p, name);
    assert Stuck(p, 2, 0, name, 0) && Stuck(p, 2, 0, name, 1);
    forall n: nat
      ensures Run(p, name, State(2, 0, 2, 1), n).None?
    {
      RetriesForever(p, name, 2, 1, 0, 0, 0, 0, n);
    }
    NeverOneEarlier(p, name, Start, State(2, 0, 2, 1));
  }

  /** The loop. It answers as the pattern means whenever it stops at all. */
  method GlobMatch(pattern: string, name: string) returns (matched: bool)
    requires Halts(pattern, name)
    ensures matched <==> Matches(pattern, name)
  {
    ghost var n: nat :| Run(pattern, name, Start, n).Some?;
    ghost var left := n;
    AnswersAreRight(pattern, name, n);
    var px, nx, nextPx, nextNx := 0, 0, 0, 0;
    while px < |pattern| || nx < |name|
      invariant 0 <= px && 0 <= nx && 0 <= nextPx && 0 <= nextNx && 0 <= left
      invariant Run(pattern, name, State(px, nx, nextPx, nextNx), left) == Run(pattern, name, Start, n)
      decreases left
    {
      left := left - 1;
      if px < |pattern| {
        var c := pattern[px];
        if c == '?' {
          if nx < |name| {
            px, nx := px + 1, nx + 1;
            continue;
          }
        } else if c == '*' {
          if px + 1 < |pattern| && pattern[px + 1] == '*' {
            if px + 2 < |pattern| && pattern[px + 2] == '/' {
              px := px + 3;
            } else {
              px := px + 2;
            }
            nextPx := px;
            nextNx := nx + 1;
            continue;
          }
          nextPx := px;
          nextNx := nx + 1;
          px := px + 1;
          continue;
        } else if nx < |name| && name[nx] == c {
          px, nx := px + 1, nx + 1;
          continue;
        }
      }
      if 0 < nextNx && nextNx <= |name| {
        px, nx := nextPx, nextNx;
        continue;
      }
      return false;
    }
    matched := true;
  }
}
