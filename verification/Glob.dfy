/** The ignore-pattern matcher: a loop that backtracks only to the last star. */
module Glob {

  import opened Common

  /** `**` or `**` followed by a slash starts at px. */
  predicate DoubleStar(p: string, px: nat) {
    px + 1 < |p| && p[px] == '*' && p[px + 1] == '*'
  }

  /** The position after the star that starts at px: `**` also swallows one slash behind it. */
  function AfterStar(p: string, px: nat): (r: nat)
    requires px < |p| && p[px] == '*'
    ensures px < r <= |p|
  {
    if !DoubleStar(p, px) then px + 1
    else if px + 2 < |p| && p[px + 2] == '/' then px + 3
    else px + 2
  }

  // ---------------------------------------------------------------------------------------------
  // Meaning
  // ---------------------------------------------------------------------------------------------

  datatype Token = AnyRun | OneByte | Byte(c: char)

  function Tokens(p: string, px: nat): seq<Token>
    requires px <= |p|
    decreases |p| - px
  {
    if px == |p| then []
    else if p[px] == '*' then [AnyRun] + Tokens(p, AfterStar(p, px))
    else [if p[px] == '?' then OneByte else Byte(p[px])] + Tokens(p, px + 1)
  }

  ghost predicate Denotes(t: Token, part: string) {
    match t
    case AnyRun => true
    case OneByte => |part| == 1
    case Byte(c) => part == [c]
  }

  ghost function Concat(parts: seq<string>): string {
    if parts == [] then "" else parts[0] + Concat(parts[1..])
  }

  /** The name can be cut into one piece per token, each piece as its token says. */
  ghost predicate Cut(tokens: seq<Token>, parts: seq<string>, name: string) {
    |parts| == |tokens| && Concat(parts) == name &&
    forall i :: 0 <= i < |tokens| ==> Denotes(tokens[i], parts[i])
  }

  ghost predicate Matches(pattern: string, name: string) {
    exists parts :: Cut(Tokens(pattern, 0), parts, name)
  }

  /** The same meaning read off position by position: pattern from px on against name from nx on. */
  ghost predicate MatchesFrom(p: string, px: nat, name: string, nx: nat)
    requires px <= |p| && nx <= |name|
    decreases |p| - px
  {
    if px == |p| then nx == |name|
    else if p[px] == '*' then exists k :: nx <= k <= |name| && MatchesFrom(p, AfterStar(p, px), name, k)
    else nx < |name| && (p[px] == '?' || p[px] == name[nx]) && MatchesFrom(p, px + 1, name, nx + 1)
  }

  lemma {:induction false} FromCut(p: string, px: nat, name: string, nx: nat, parts: seq<string>)
    requires px <= |p| && nx <= |name|
    requires Cut(Tokens(p, px), parts, name[nx..])
    ensures MatchesFrom(p, px, name, nx)
    decreases |p| - px
  {
    if px < |p| {
      var rest := parts[1..];
      var k := nx + |parts[0]|;
      var px' := if p[px] == '*' then AfterStar(p, px) else px + 1;
      assert name[nx..] == parts[0] + Concat(rest);
      assert name[k..] == Concat(rest);
      assert Tokens(p, px)[1..] == Tokens(p, px');
      forall i | 0 <= i < |rest|
        ensures Denotes(Tokens(p, px')[i], rest[i])
      {
        assert Denotes(Tokens(p, px)[i + 1], parts[i + 1]);
      }
      assert Denotes(Tokens(p, px)[0], parts[0]);
      FromCut(p, px', name, k, rest);
    }
  }

  lemma {:induction false} ToCut(p: string, px: nat, name: string, nx: nat) returns (parts: seq<string>)
    requires px <= |p| && nx <= |name|
    requires MatchesFrom(p, px, name, nx)
    ensures Cut(Tokens(p, px), parts, name[nx..])
    decreases |p| - px
  {
    if px == |p| {
      parts := [];
    } else {
      var k, px' := nx + 1, px + 1;
      if p[px] == '*' {
        px' := AfterStar(p, px);
        k :| nx <= k <= |name| && MatchesFrom(p, px', name, k);
      }
      var rest := ToCut(p, px', name, k);
      parts := [name[nx..k]] + rest;
      assert parts[1..] == rest;
      assert name[nx..] == name[nx..k] + name[k..];
    }
  }

  lemma MatchesIsFrom(p: string, name: string)
    ensures Matches(p, name) <==> MatchesFrom(p, 0, name, 0)
  {
    assert name[0..] == name;
    if parts :| Cut(Tokens(p, 0), parts, name) {
      FromCut(p, 0, name, 0, parts);
    }
    if MatchesFrom(p, 0, name, 0) {
      var parts := ToCut(p, 0, name, 0);
    }
  }

  // ---------------------------------------------------------------------------------------------
  // The meaning from the front of the pattern
  // ---------------------------------------------------------------------------------------------

  ghost predicate SomeFrom(p: string, r: nat, name: string, at: nat)
    requires r <= |p|
  {
    exists k :: at <= k <= |name| && MatchesFrom(p, r, name, k)
  }

  /** Matching from a position on looks at nothing before it, in the pattern or in the name. */
  lemma {:induction false} FromShifts(x: string, p: string, px: nat, y: string, name: string, nx: nat)
    requires px <= |p| && nx <= |name|
    ensures MatchesFrom(x + p, |x| + px, y + name, |y| + nx) <==> MatchesFrom(p, px, name, nx)
    decreases |p| - px
  {
    var q, n := x + p, y + name;
    if px < |p| {
      assert q[|x| + px] == p[px];
      if p[px] == '*' {
        StarShifts(x, p, px);
        var r := AfterStar(p, px);
        forall k | nx <= k <= |name|
          ensures MatchesFrom(q, |x| + r, n, |y| + k) <==> MatchesFrom(p, r, name, k)
        {
          FromShifts(x, p, r, y, name, k);
        }
        FromStar(q, |x| + px, n, |y| + nx, |x| + r);
        FromStar(p, px, name, nx, r);
        if k :| nx <= k <= |name| && MatchesFrom(p, r, name, k) {
          assert MatchesFrom(q, |x| + r, n, |y| + k);
        }
        if MatchesFrom(q, |x| + px, n, |y| + nx) {
          var r' := |x| + r;
          var k :| |y| + nx <= k <= |n| && MatchesFrom(q, r', n, k);
          assert MatchesFrom(p, r, name, k - |y|);
        }
      } else if nx < |name| {
        assert n[|y| + nx] == name[nx];
        FromShifts(x, p, px + 1, y, name, nx + 1);
      }
    }
  }

  lemma StarShifts(x: string, p: string, px: nat)
    requires px < |p| && p[px] == '*'
    ensures (x + p)[|x| + px] == '*' && AfterStar(x + p, |x| + px) == |x| + AfterStar(p, px)
  {
    var q := x + p;
    assert px + 1 < |p| ==> q[|x| + px + 1] == p[px + 1];
    assert px + 2 < |p| ==> q[|x| + px + 2] == p[px + 2];
  }

  lemma StarTakes(p: string, px: nat, name: string, nx: nat, r: nat) returns (k: nat)
    requires px < |p| && nx <= |name| && p[px] == '*' && r == AfterStar(p, px)
    requires MatchesFrom(p, px, name, nx)
    ensures nx <= k <= |name| && MatchesFrom(p, r, name, k)
  {
    k :| nx <= k <= |name| && MatchesFrom(p, r, name, k);
  }

  lemma StarGives(p: string, px: nat, name: string, nx: nat, r: nat, k: nat)
    requires px < |p| && p[px] == '*' && r == AfterStar(p, px)
    requires nx <= k <= |name| && MatchesFrom(p, r, name, k)
    ensures MatchesFrom(p, px, name, nx)
  {
  }

  lemma FromStar(p: string, px: nat, name: string, nx: nat, r: nat)
    requires px < |p| && nx <= |name| && p[px] == '*' && r == AfterStar(p, px)
    ensures MatchesFrom(p, px, name, nx) <==> SomeFrom(p, r, name, nx)
  {
    if MatchesFrom(p, px, name, nx) {
      var k := StarTakes(p, px, name, nx, r);
    }
    if SomeFrom(p, r, name, nx) {
      var k :| nx <= k <= |name| && MatchesFrom(p, r, name, k);
      StarGives(p, px, name, nx, r, k);
    }
  }

  /** Some suffix of the name, the name itself and the empty one included, matches. */
  ghost predicate SuffixMatches(p: string, name: string) {
    exists k :: 0 <= k <= |name| && Matches(p, name[k..])
  }

  lemma {:induction false} StarFront(star: string, p: string, name: string)
    requires star != "" && star[0] == '*' && AfterStar(star + p, 0) == |star|
    ensures Matches(star + p, name) <==> SuffixMatches(p, name)
  {
    hide Matches, MatchesFrom;
    var q := star + p;
    MatchesIsFrom(q, name);
    FromStar(q, 0, name, 0, |star|);
    forall k | 0 <= k <= |name|
      ensures MatchesFrom(q, |star|, name, k) <==> Matches(p, name[k..])
    {
      MatchesIsFrom(p, name[k..]);
      assert name[..k] + name[k..] == name;
      FromShifts(star, p, 0, name[..k], name[k..], 0);
    }
    if Matches(q, name) {
      var k :| 0 <= k <= |name| && MatchesFrom(q, |star|, name, k);
      assert Matches(p, name[k..]);
    }
    if k :| 0 <= k <= |name| && Matches(p, name[k..]) {
      assert MatchesFrom(q, |star|, name, k);
    }
  }

  /** What a pattern matches, by its front: nothing is matched by nothing only; a `?` takes any one byte
      and another byte itself; a star, a double star, and a double star with a slash each take any
      run of bytes and leave a suffix to the rest. */
  lemma MatchesByFront(p: string, name: string)
    ensures Matches("", name) <==> name == ""
    ensures forall c :: c != '*' ==>
              (Matches([c] + p, name) <==> name != "" && (c == '?' || c == name[0]) && Matches(p, name[1..]))
    ensures Matches("**/" + p, name) <==> SuffixMatches(p, name)
    ensures p == "" || p[0] != '/' ==> (Matches("**" + p, name) <==> SuffixMatches(p, name))
    ensures p == "" || p[0] != '*' ==> (Matches("*" + p, name) <==> SuffixMatches(p, name))
  {
    hide Matches, SuffixMatches, MatchesFrom;
    NothingMatches(name);
    forall c | c != '*'
      ensures Matches([c] + p, name) <==> name != "" && (c == '?' || c == name[0]) && Matches(p, name[1..])
    {
      ByteFront(c, p, name);
    }
    StarFront("**/", p, name);
    if p == "" || p[0] != '/' {
      StarFront("**", p, name);
    }
    if p == "" || p[0] != '*' {
      StarFront("*", p, name);
    }
  }

  lemma NothingMatches(name: string)
    ensures Matches("", name) <==> name == ""
  {
    MatchesIsFrom("", name);
  }

  lemma ByteFront(c: char, p: string, name: string)
    requires c != '*'
    ensures Matches([c] + p, name) <==> name != "" && (c == '?' || c == name[0]) && Matches(p, name[1..])
  {
    hide Matches;
    MatchesIsFrom([c] + p, name);
    if name != "" {
      MatchesIsFrom(p, name[1..]);
      assert name == [name[0]] + name[1..];
      FromShifts([c], p, 0, [name[0]], name[1..], 0);
    }
  }

  // ---------------------------------------------------------------------------------------------
  // The loop, one iteration at a time
  // ---------------------------------------------------------------------------------------------

  datatype State = State(px: nat, nx: nat, nextPx: nat, nextNx: nat)

  datatype Outcome = Continue(state: State) | Answer(result: bool)

  /** What the loop does when the current pattern byte does not fit. */
  function Retry(name: string, s: State): Outcome {
    if 0 < s.nextNx <= |name| then Continue(s.(px := s.nextPx, nx := s.nextNx)) else Answer(false)
  }

  function Step(p: string, name: string, s: State): Outcome {
    if s.px >= |p| && s.nx >= |name| then Answer(true)
    else if s.px >= |p| then Retry(name, s)
    else if p[s.px] == '?' then
      if s.nx < |name| then Continue(s.(px := s.px + 1, nx := s.nx + 1)) else Retry(name, s)
    else if p[s.px] == '*' then
      var after := AfterStar(p, s.px);
      Continue(State(after, s.nx, if DoubleStar(p, s.px) then after else s.px, s.nx + 1))
    else if s.nx < |name| && name[s.nx] == p[s.px] then Continue(s.(px := s.px + 1, nx := s.nx + 1))
    else Retry(name, s)
  }

  /** The answer after at most n iterations, if there is one by then. */
  function Run(p: string, name: string, s: State, n: nat): Option<bool>
    decreases n
  {
    if n == 0 then None
    else match Step(p, name, s)
      case Answer(r) => Some(r)
      case Continue(s') => Run(p, name, s', n - 1)
  }

  const Start := State(0, 0, 0, 0)

  ghost predicate Halts(p: string, name: string) {
    exists n: nat :: Run(p, name, Start, n).Some?
  }

  // ---------------------------------------------------------------------------------------------
  // Whenever the loop answers, the answer is right
  // ---------------------------------------------------------------------------------------------

  /** Pattern bytes r..r+t hold no star and fit the name from position at on. */
  ghost predicate Consumed(p: string, r: nat, t: nat, name: string, at: nat) {
    r + t <= |p| && at + t <= |name| &&
    forall i :: r <= i < r + t ==> p[i] != '*' && (p[i] == '?' || p[i] == name[i - r + at])
  }

  /** The segment behind the last star starts at r and is being tried at name position at. */
  ghost predicate Trying(p: string, name: string, s: State, r: nat, at: nat, goal: bool) {
    s.px <= |p| && s.nx <= |name| && r <= s.px && at <= s.nx && s.px - r == s.nx - at &&
    Consumed(p, r, s.px - r, name, at) &&
    (goal <==> SomeFrom(p, r, name, at)) &&
    (if s.nextPx == r then at <= s.nextNx <= at + 1 && 0 < s.nextNx
     else r == s.nextPx + 1 && p[s.nextPx] == '*' && !DoubleStar(p, s.nextPx) && s.nextNx == at + 1)
  }

  /** What holds before every iteration; goal is whether the whole name matches. */
  ghost predicate Sound(p: string, name: string, s: State, goal: bool) {
    s.px <= |p| && s.nx <= |name| &&
    (((s.nextNx == 0 || (s.px < |p| && p[s.px] == '*')) && (goal <==> MatchesFrom(p, s.px, name, s.nx))) ||
     exists r, at :: Trying(p, name, s, r, at, goal))
  }

  lemma {:induction false} ConsumedMatches(p: string, r: nat, t: nat, name: string, at: nat)
    requires Consumed(p, r, t, name, at)
    ensures MatchesFrom(p, r, name, at) <==> MatchesFrom(p, r + t, name, at + t)
    decreases t
  {
    if t > 0 {
      assert p[r] != '*';
      ConsumedMatches(p, r + 1, t - 1, name, at + 1);
    }
  }

  /** A match of a star-free stretch consumes exactly its length. */
  lemma {:induction false} StretchMatches(p: string, r: nat, t: nat, name: string, at: nat)
    requires r + t <= |p| && at <= |name| && forall i :: r <= i < r + t ==> p[i] != '*'
    requires MatchesFrom(p, r, name, at)
    ensures at + t <= |name| && MatchesFrom(p, r + t, name, at + t)
    decreases t
  {
    if t > 0 {
      assert p[r] != '*';
      StretchMatches(p, r + 1, t - 1, name, at + 1);
    }
  }

  /** Reaching the next star at its leftmost position loses no match: later positions of the
      previous star only reach later positions of this one. */
  lemma NextStar(p: string, name: string, s: State, r: nat, at: nat, goal: bool)
    requires Trying(p, name, s, r, at, goal) && s.px < |p| && p[s.px] == '*'
    ensures goal <==> MatchesFrom(p, s.px, name, s.nx)
  {
    var t := s.px - r;
    if MatchesFrom(p, s.px, name, s.nx) {
      ConsumedMatches(p, r, t, name, at);
    }
    if goal {
      var k :| at <= k <= |name| && MatchesFrom(p, r, name, k);
      StretchMatches(p, r, t, name, k);
      assert r + t == s.px && MatchesFrom(p, s.px, name, k + t);
      var j :| k + t <= j <= |name| && MatchesFrom(p, AfterStar(p, s.px), name, j);
    }
  }

  /** The attempt at this position is refuted: only later positions remain. */
  lemma AttemptFails(p: string, name: string, s: State, r: nat, at: nat, goal: bool)
    requires Trying(p, name, s, r, at, goal) && !MatchesFrom(p, s.px, name, s.nx)
    ensures !MatchesFrom(p, r, name, at)
    ensures at < |name| ==> (goal <==> SomeFrom(p, r, name, at + 1))
    ensures at == |name| ==> !goal
  {
    ConsumedMatches(p, r, s.px - r, name, at);
  }

  lemma SoundStep(p: string, name: string, s: State, goal: bool)
    requires Sound(p, name, s, goal)
    ensures match Step(p, name, s)
            case Answer(r) => r <==> goal
            case Continue(s') => Sound(p, name, s', goal)
  {
    hide Tokens;
    if (s.nextNx == 0 || (s.px < |p| && p[s.px] == '*')) && (goal <==> MatchesFrom(p, s.px, name, s.nx)) {
      if s.px < |p| && p[s.px] == '*' {
        StarStep(p, name, s, goal);
      }
    } else {
      var r, at :| Trying(p, name, s, r, at, goal);
      if s.px < |p| && p[s.px] == '*' {
        NextStar(p, name, s, r, at, goal);
        StarStep(p, name, s, goal);
      } else {
        TryingStep(p, name, s, r, at, goal);
      }
    }
  }

  lemma StarStep(p: string, name: string, s: State, goal: bool)
    requires s.px < |p| && s.nx <= |name| && p[s.px] == '*' && (goal <==> MatchesFrom(p, s.px, name, s.nx))
    ensures Step(p, name, s).Continue? && Sound(p, name, Step(p, name, s).state, goal)
  {
    var s' := Step(p, name, s).state;
    assert Trying(p, name, s', AfterStar(p, s.px), s.nx, goal);
  }

  lemma TryingStep(p: string, name: string, s: State, r: nat, at: nat, goal: bool)
    requires Trying(p, name, s, r, at, goal) && (s.px < |p| ==> p[s.px] != '*')
    ensures match Step(p, name, s)
            case Answer(b) => b <==> goal
            case Continue(s') => Sound(p, name, s', goal)
  {
    ConsumedMatches(p, r, s.px - r, name, at);
    if s.px >= |p| && s.nx >= |name| {
    } else if s.px < |p| && s.nx < |name| && (p[s.px] == '?' || name[s.nx] == p[s.px]) {
      assert Trying(p, name, Step(p, name, s).state, r, at, goal);
    } else {
      AttemptFails(p, name, s, r, at, goal);
      assert Step(p, name, s) == Retry(name, s);
      if 0 < s.nextNx <= |name| {
        var s' := Step(p, name, s).state;
        if s.nextPx == r {
          if s.nextNx == at {
            assert Trying(p, name, s', r, at, goal);
          } else {
            assert Trying(p, name, s', r, at + 1, goal);
          }
        } else {
          assert AfterStar(p, s'.px) == r && s'.nx == at + 1;
          assert SomeFrom(p, r, name, at + 1) <==> MatchesFrom(p, s'.px, name, s'.nx);
        }
      }
    }
  }

  /** Partial correctness for every pattern, doubled stars included. */
  lemma {:induction false} RunSound(p: string, name: string, s: State, n: nat, goal: bool)
    requires Sound(p, name, s, goal) && Run(p, name, s, n).Some?
    ensures Run(p, name, s, n).value <==> goal
    decreases n
  {
    SoundStep(p, name, s, goal);
    match Step(p, name, s)
    case Answer(_) =>
    case Continue(s') => RunSound(p, name, s', n - 1, goal);
  }

  lemma AnswersAreRight(p: string, name: string, n: nat)
    requires Run(p, name, Start, n).Some?
    ensures Run(p, name, Start, n).value <==> Matches(p, name)
  {
    MatchesIsFrom(p, name);
    RunSound(p, name, Start, n, Matches(p, name));
  }
}
