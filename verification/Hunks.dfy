/** Grouping edits into hunks with context: the old side of a unified diff. */
module Hunks {
  import opened EditDistance
  import opened LineDiff

  datatype HunkLine = Context(line: Line) | Removed(line: Line) | Added(line: Line)

  /** The new side's start and count are not part of this model. */
  datatype Hunk = Hunk(oldStart: nat, oldCount: nat, lines: seq<HunkLine>)

  function End(h: Hunk): nat { h.oldStart + h.oldCount }

  // ---------------------------------------------------------------------------------------------
  // Reading a hunk
  // ---------------------------------------------------------------------------------------------

  /** What the hunk says the old file has there. */
  function OldSide(ls: seq<HunkLine>): seq<Line> {
    if ls == [] then []
    else OldSide(ls[..|ls| - 1]) + (if ls[|ls| - 1].Added? then [] else [ls[|ls| - 1].line])
  }

  /** What it says the new file has instead. */
  function NewSide(ls: seq<HunkLine>): seq<Line> {
    if ls == [] then []
    else NewSide(ls[..|ls| - 1]) + (if ls[|ls| - 1].Removed? then [] else [ls[|ls| - 1].line])
  }

  ghost predicate Accurate(a: seq<Line>, h: Hunk) {
    End(h) <= |a| && OldSide(h.lines) == a[h.oldStart..End(h)]
  }

  ghost predicate AllAccurate(a: seq<Line>, hs: seq<Hunk>) {
    forall i :: 0 <= i < |hs| ==> Accurate(a, hs[i])
  }

  /** Each hunk starts where those before it end, or later. */
  ghost predicate Disjoint(hs: seq<Hunk>) {
    forall i, j :: 0 <= i < j < |hs| ==> End(hs[i]) <= hs[j].oldStart
  }

  function LastEnd(hs: seq<Hunk>): nat {
    if hs == [] then 0 else End(hs[|hs| - 1])
  }

  lemma InitAccurate(a: seq<Line>, hs: seq<Hunk>)
    requires AllAccurate(a, hs) && Disjoint(hs) && hs != []
    ensures var init, last := hs[..|hs| - 1], hs[|hs| - 1];
            AllAccurate(a, init) && Disjoint(init) && LastEnd(init) <= last.oldStart <= End(last) <= |a|
  {
    var init := hs[..|hs| - 1];
    assert Accurate(a, hs[|hs| - 1]);
    forall i | 0 <= i < |init|
      ensures Accurate(a, init[i])
    {
      assert Accurate(a, hs[i]);
    }
  }

  /** The new file up to the end of the last hunk, as a patch tool produces it. */
  ghost function Applied(a: seq<Line>, hs: seq<Hunk>): seq<Line>
    requires AllAccurate(a, hs) && Disjoint(hs)
    decreases |hs|
  {
    if hs == [] then []
    else
      InitAccurate(a, hs);
      var init, last := hs[..|hs| - 1], hs[|hs| - 1];
      Applied(a, init) + a[LastEnd(init)..last.oldStart] + NewSide(last.lines)
  }

  // ---------------------------------------------------------------------------------------------
  // Which edits share a hunk
  // ---------------------------------------------------------------------------------------------

  function Before(n: int, context: nat): nat {
    if n - context > 0 then n - context else 0
  }

  /** Old start of the hunk the i-th edit goes into. */
  function HunkStart(es: seq<Edit>, i: nat, context: nat): int
    requires i < |es|
    decreases i, 1
  {
    if i == 0 || Breaks(es, i, context) then Before(es[i].oldStart, context) else HunkStart(es, i - 1, context)
  }

  /** The i-th edit lies too far behind the start of the current hunk to go into it. */
  predicate Breaks(es: seq<Edit>, i: nat, context: nat)
    requires 0 < i < |es|
    decreases i, 0
  {
    es[i].oldStart - HunkStart(es, i - 1, context) > 2 * context
  }

  /** Wherever one of the first n edits starts a new hunk there is room for its context behind the
      edit before. */
  ghost predicate Roomy(es: seq<Edit>, n: nat, context: nat)
    requires n <= |es|
  {
    forall i :: 0 < i < n && Breaks(es, i, context) ==> es[i].oldStart - es[i - 1].oldEnd >= context
  }

  // ---------------------------------------------------------------------------------------------
  // Building
  // ---------------------------------------------------------------------------------------------

  lemma SidesAppend(ls: seq<HunkLine>, l: HunkLine)
    ensures OldSide(ls + [l]) == OldSide(ls) + (if l.Added? then [] else [l.line])
    ensures NewSide(ls + [l]) == NewSide(ls) + (if l.Removed? then [] else [l.line])
  {
    assert (ls + [l])[..|ls|] == ls;
  }

  lemma {:induction false} AppliedSnoc(a: seq<Line>, hs: seq<Hunk>, h: Hunk)
    requires AllAccurate(a, hs + [h]) && Disjoint(hs + [h])
    ensures AllAccurate(a, hs) && Disjoint(hs) && LastEnd(hs) <= h.oldStart <= |a|
    ensures Applied(a, hs + [h]) == Applied(a, hs) + a[LastEnd(hs)..h.oldStart] + NewSide(h.lines)
  {
    hide NewSide, Accurate;
    assert (hs + [h])[..|hs|] == hs;
    InitAccurate(a, hs + [h]);
  }

  lemma OpenedAccurate(a: seq<Line>, hs: seq<Hunk>, s: nat)
    requires AllAccurate(a, hs) && s <= |a|
    ensures AllAccurate(a, hs + [Hunk(s, 0, [])])
  {
    var h := Hunk(s, 0, []);
    assert a[s..s] == [] && Accurate(a, h);
    hide Accurate;
    forall i | 0 <= i < |hs| + 1
      ensures Accurate(a, (hs + [h])[i])
    {
      assert i < |hs| ==> Accurate(a, hs[i]);
    }
  }

  lemma OpenedDisjoint(hs: seq<Hunk>, s: nat)
    ensures Disjoint(hs + [Hunk(s, 0, [])]) <==> Disjoint(hs) && LastEnd(hs) <= s
  {
    var hs' := hs + [Hunk(s, 0, [])];
    assert forall i :: 0 <= i < |hs| ==> hs'[i] == hs[i];
    if Disjoint(hs') && hs != [] {
      assert End(hs'[|hs| - 1]) <= hs'[|hs|].oldStart;
    }
  }

  /** Starting a hunk at s copies the lines before it. */
  lemma {:induction false} Opened(a: seq<Line>, hs: seq<Hunk>, s: nat)
    requires AllAccurate(a, hs) && s <= |a|
    ensures var hs' := hs + [Hunk(s, 0, [])];
            AllAccurate(a, hs') && (Disjoint(hs') <==> Disjoint(hs) && LastEnd(hs) <= s) &&
            (Disjoint(hs') ==> Applied(a, hs') == Applied(a, hs) + a[LastEnd(hs)..s])
  {
    hide AllAccurate, Disjoint, Applied;
    OpenedAccurate(a, hs, s);
    OpenedDisjoint(hs, s);
    if Disjoint(hs + [Hunk(s, 0, [])]) {
      AppliedSnoc(a, hs, Hunk(s, 0, []));
    }
  }

  /** Lines added to the last hunk are added to what the hunks produce. */
  lemma {:induction false} Grown(a: seq<Line>, hs: seq<Hunk>, h: Hunk, h': Hunk, added: seq<Line>)
    requires AllAccurate(a, hs + [h]) && Accurate(a, h') && h'.oldStart == h.oldStart
    requires NewSide(h'.lines) == NewSide(h.lines) + added
    ensures AllAccurate(a, hs + [h']) && (Disjoint(hs + [h']) <==> Disjoint(hs + [h]))
    ensures Disjoint(hs + [h]) ==> Applied(a, hs + [h']) == Applied(a, hs + [h]) + added
  {
    hide Accurate, NewSide;
    var was, now := hs + [h], hs + [h'];
    forall i | 0 <= i < |now|
      ensures Accurate(a, now[i])
    {
      assert Accurate(a, was[i]);
    }
    StartsDecide(hs, h, h');
    if Disjoint(was) {
      hide Disjoint, AllAccurate;
      AppliedSnoc(a, hs, h);
      AppliedSnoc(a, hs, h');
    }
  }

  lemma StartsDecide(hs: seq<Hunk>, h: Hunk, h': Hunk)
    requires h'.oldStart == h.oldStart
    ensures Disjoint(hs + [h']) <==> Disjoint(hs + [h])
  {
    var was, now := hs + [h], hs + [h'];
    forall i, j | 0 <= i < j < |was|
      ensures now[j].oldStart == was[j].oldStart && now[i] == was[i]
    {
    }
  }

  /** Lines of the old file shown as context, or as removed, and lines of the new file as added. */
  function Contexts(ls: seq<Line>): (r: seq<HunkLine>)
    ensures |r| == |ls| && forall i :: 0 <= i < |r| ==> r[i] == Context(ls[i])
  {
    seq(|ls|, i requires 0 <= i < |ls| => Context(ls[i]))
  }

  function Removals(ls: seq<Line>): (r: seq<HunkLine>)
    ensures |r| == |ls| && forall i :: 0 <= i < |r| ==> r[i] == Removed(ls[i])
  {
    seq(|ls|, i requires 0 <= i < |ls| => Removed(ls[i]))
  }

  function Additions(ls: seq<Line>): (r: seq<HunkLine>)
    ensures |r| == |ls| && forall i :: 0 <= i < |r| ==> r[i] == Added(ls[i])
  {
    seq(|ls|, i requires 0 <= i < |ls| => Added(ls[i]))
  }

  lemma {:induction false} SidesOf(ls: seq<HunkLine>, xs: seq<Line>)
    ensures OldSide(ls + Contexts(xs)) == OldSide(ls) + xs && NewSide(ls + Contexts(xs)) == NewSide(ls) + xs
    ensures OldSide(ls + Removals(xs)) == OldSide(ls) + xs && NewSide(ls + Removals(xs)) == NewSide(ls)
    ensures OldSide(ls + Additions(xs)) == OldSide(ls) && NewSide(ls + Additions(xs)) == NewSide(ls) + xs
  {
    hide OldSide, NewSide;
    if xs == [] {
      assert ls + Contexts(xs) == ls && ls + Removals(xs) == ls && ls + Additions(xs) == ls;
    } else {
      var n := |xs| - 1;
      SidesOf(ls, xs[..n]);
      assert ls + Contexts(xs) == ls + Contexts(xs[..n]) + [Context(xs[n])];
      assert ls + Removals(xs) == ls + Removals(xs[..n]) + [Removed(xs[n])];
      assert ls + Additions(xs) == ls + Additions(xs[..n]) + [Added(xs[n])];
      SidesAppend(ls + Contexts(xs[..n]), Context(xs[n]));
      SidesAppend(ls + Removals(xs[..n]), Removed(xs[n]));
      SidesAppend(ls + Additions(xs[..n]), Added(xs[n]));
      assert xs == xs[..n] + [xs[n]];
    }
  }

  function Slice(s: seq<Line>, lo: nat, hi: nat): seq<Line> {
    if lo <= hi <= |s| then s[lo..hi] else []
  }

  /** How an edit is shown: the old lines since the given one as context, its removed and its added lines. */
  function EditLines(a: seq<Line>, b: seq<Line>, from: nat, e: Edit): seq<HunkLine> {
    Contexts(Slice(a, from, e.oldStart)) + Removals(Slice(a, e.oldStart, e.oldEnd)) +
    Additions(Slice(b, e.newStart, e.newEnd))
  }

  lemma EditSides(ls: seq<HunkLine>, a: seq<Line>, b: seq<Line>, from: nat, e: Edit)
    requires from <= e.oldStart <= e.oldEnd <= |a| && e.newStart <= e.newEnd <= |b|
    ensures OldSide(ls + EditLines(a, b, from, e)) == OldSide(ls) + a[from..e.oldEnd]
    ensures NewSide(ls + EditLines(a, b, from, e)) == NewSide(ls) + a[from..e.oldStart] + b[e.newStart..e.newEnd]
    ensures ls + EditLines(a, b, from, e) ==
            ls + Contexts(a[from..e.oldStart]) + Removals(a[e.oldStart..e.oldEnd]) + Additions(b[e.newStart..e.newEnd])
  {
    hide OldSide, NewSide, Contexts, Removals, Additions;
    var x, y, z := a[from..e.oldStart], a[e.oldStart..e.oldEnd], b[e.newStart..e.newEnd];
    SidesOf(ls, x);
    SidesOf(ls + Contexts(x), y);
    SidesOf(ls + Contexts(x) + Removals(y), z);
    assert ls + (Contexts(x) + Removals(y) + Additions(z)) == ls + Contexts(x) + Removals(y) + Additions(z);
    assert x + y == a[from..e.oldEnd];
    assert OldSide(ls) + x + y == OldSide(ls) + (x + y);
  }

  method AddContext(ls: seq<HunkLine>, a: seq<Line>, lo: nat, hi: nat) returns (lines: seq<HunkLine>, count: nat)
    requires lo <= hi <= |a|
    ensures count == hi - lo && lines == ls + Contexts(a[lo..hi])
  {
    lines, count := ls, 0;
    for i := lo to hi
      invariant count == i - lo && lines == ls + Contexts(a[lo..i])
    {
      assert a[lo..i + 1] == a[lo..i] + [a[i]];
      lines, count := lines + [Context(a[i])], count + 1;
    }
  }

  method AddRemoved(ls: seq<HunkLine>, a: seq<Line>, lo: nat, hi: nat) returns (lines: seq<HunkLine>, count: nat)
    requires lo <= hi <= |a|
    ensures count == hi - lo && lines == ls + Removals(a[lo..hi])
  {
    lines, count := ls, 0;
    for i := lo to hi
      invariant count == i - lo && lines == ls + Removals(a[lo..i])
    {
      assert a[lo..i + 1] == a[lo..i] + [a[i]];
      lines, count := lines + [Removed(a[i])], count + 1;
    }
  }

  method AddAdded(ls: seq<HunkLine>, b: seq<Line>, lo: nat, hi: nat) returns (lines: seq<HunkLine>)
    requires lo <= hi <= |b|
    ensures lines == ls + Additions(b[lo..hi])
  {
    lines := ls;
    for i := lo to hi
      invariant lines == ls + Additions(b[lo..i])
    {
      assert b[lo..i + 1] == b[lo..i] + [b[i]];
      lines := lines + [Added(b[i])];
    }
  }

  /** Context up to the edit, the lines it removes and the lines it adds. */
  method AddEdit(cur: Hunk, e: Edit, a: seq<Line>, b: seq<Line>) returns (cur': Hunk)
    requires End(cur) <= e.oldStart <= e.oldEnd <= |a| && e.newStart <= e.newEnd <= |b|
    ensures cur'.oldStart == cur.oldStart && End(cur') == e.oldEnd
    ensures cur'.lines == cur.lines + EditLines(a, b, End(cur), e)
    ensures OldSide(cur'.lines) == OldSide(cur.lines) + a[End(cur)..e.oldEnd]
    ensures NewSide(cur'.lines) == NewSide(cur.lines) + a[End(cur)..e.oldStart] + b[e.newStart..e.newEnd]
  {
    hide OldSide, NewSide, EditLines, Contexts, Removals, Additions;
    var lines, kept := AddContext(cur.lines, a, End(cur), e.oldStart);
    var removed;
    lines, removed := AddRemoved(lines, a, e.oldStart, e.oldEnd);
    lines := AddAdded(lines, b, e.newStart, e.newEnd);
    EditSides(cur.lines, a, b, End(cur), e);
    cur' := Hunk(cur.oldStart, cur.oldCount + kept + removed, lines);
  }

  /** The end of n lines from p on, or of the file. */
  function Reach(p: nat, n: nat, size: nat): (end: nat)
    requires p <= size
    ensures p <= end <= size
  {
    if size - p <= n then size else p + n
  }

  method TrailingContext(cur: Hunk, a: seq<Line>, context: nat) returns (cur': Hunk)
    requires End(cur) <= |a|
    ensures cur'.oldStart == cur.oldStart && End(cur') == Reach(End(cur), context, |a|)
    ensures cur'.lines == cur.lines + Contexts(a[End(cur)..End(cur')])
    ensures OldSide(cur'.lines) == OldSide(cur.lines) + a[End(cur)..End(cur')]
    ensures NewSide(cur'.lines) == NewSide(cur.lines) + a[End(cur)..End(cur')]
  {
    hide OldSide, NewSide;
    var lines, count, endOld, i := cur.lines, cur.oldCount, End(cur), 0;
    while i < context && endOld + i < |a|
      invariant 0 <= i <= context && endOld + i <= |a| && count == cur.oldCount + i
      invariant lines == cur.lines + Contexts(a[endOld..endOld + i])
    {
      assert a[endOld..endOld + i + 1] == a[endOld..endOld + i] + [a[endOld + i]];
      lines, count, i := lines + [Context(a[endOld + i])], count + 1, i + 1;
    }
    SidesOf(cur.lines, a[endOld..endOld + i]);
    cur' := Hunk(cur.oldStart, count, lines);
  }

  // ---------------------------------------------------------------------------------------------
  // Which edits a hunk shows, and how
  // ---------------------------------------------------------------------------------------------

  /** The lines of edits lo..hi in a hunk that starts at the given line: each edit's removed and added
      lines behind the old lines since the edit before. */
  function Shown(a: seq<Line>, b: seq<Line>, es: seq<Edit>, lo: nat, hi: nat, start: nat): seq<HunkLine>
    requires lo <= hi <= |es|
    decreases hi
  {
    if hi == lo then []
    else
      var from := if hi - 1 == lo then start else es[hi - 2].oldEnd;
      Shown(a, b, es, lo, hi - 1, start) + EditLines(a, b, from, es[hi - 1])
  }

  /** A hunk for edits lo..hi starts the context's number of lines before the first of them, or with the
      file. The others start no further behind its start than twice the context, and unless the hunk is
      the last, the next edit does. */
  ghost predicate Placed(es: seq<Edit>, context: nat, start: int, lo: nat, hi: nat, last: bool) {
    lo < hi <= |es| && start == Before(es[lo].oldStart, context) &&
    (forall i :: lo < i < hi ==> es[i].oldStart - start <= 2 * context) &&
    (!last ==> hi < |es| && es[hi].oldStart - start > 2 * context)
  }

  /** The hunk's lines are those of edits lo..hi, and behind the last hunk's edits comes more. */
  ghost predicate Group(a: seq<Line>, b: seq<Line>, es: seq<Edit>, context: nat, h: Hunk, lo: nat, hi: nat, last: bool,
                        more: seq<HunkLine>) {
    Placed(es, context, h.oldStart, lo, hi, last) &&
    h.lines == Shown(a, b, es, lo, hi, h.oldStart) + (if last then more else [])
  }

  /** Hunk j shows the edits between cut j and the next. */
  ghost predicate GroupAt(a: seq<Line>, b: seq<Line>, es: seq<Edit>, context: nat, hs: seq<Hunk>, cuts: seq<nat>,
                          j: nat, more: seq<HunkLine>)
    requires j < |hs| == |cuts| - 1
  {
    Group(a, b, es, context, hs[j], cuts[j], cuts[j + 1], j + 1 == |hs|, more)
  }

  /** The hunks show the first n edits, each once and in order. */
  ghost predicate Grouped(a: seq<Line>, b: seq<Line>, es: seq<Edit>, context: nat, hs: seq<Hunk>, cuts: seq<nat>,
                          n: nat, more: seq<HunkLine>) {
    |cuts| == |hs| + 1 && cuts[0] == 0 && cuts[|hs|] == n &&
    forall j: nat :: j < |hs| ==> GroupAt(a, b, es, context, hs, cuts, j, more)
  }

  /** What an edit's lines add to a hunk that ends where they begin. */
  ghost predicate ShowsEdit(a: seq<Line>, b: seq<Line>, e: Edit, h: Hunk, h': Hunk) {
    h'.oldStart == h.oldStart && h'.lines == h.lines + EditLines(a, b, End(h), e)
  }

  lemma ShownNext(a: seq<Line>, b: seq<Line>, es: seq<Edit>, lo: nat, i: nat, start: nat)
    requires lo < i < |es|
    ensures Shown(a, b, es, lo, i + 1, start) ==
            Shown(a, b, es, lo, i, start) + EditLines(a, b, es[i - 1].oldEnd, es[i])
  {
    hide EditLines;
  }

  lemma ShownFirst(a: seq<Line>, b: seq<Line>, es: seq<Edit>, i: nat, start: nat)
    requires i < |es|
    ensures Shown(a, b, es, i, i + 1, start) == EditLines(a, b, start, es[i])
  {
    hide EditLines;
    assert Shown(a, b, es, i, i, start) == [];
  }

  lemma GroupStarts(a: seq<Line>, b: seq<Line>, es: seq<Edit>, context: nat, i: nat, h': Hunk)
    requires i < |es| && ShowsEdit(a, b, es[i], Hunk(Before(es[i].oldStart, context), 0, []), h')
    ensures Group(a, b, es, context, h', i, i + 1, true, [])
  {
    ShownFirst(a, b, es, i, Before(es[i].oldStart, context));
    hide Shown, EditLines, Before;
  }

  lemma LinesTaken(x: seq<HunkLine>, y: seq<HunkLine>, x': seq<HunkLine>, z: seq<HunkLine>)
    requires x == y + [] && x' == x + z
    ensures x' == y + z + []
  {
  }

  lemma PlacedNext(es: seq<Edit>, context: nat, start: int, lo: nat, i: nat)
    requires i < |es| && Placed(es, context, start, lo, i, true) && es[i].oldStart - start <= 2 * context
    ensures Placed(es, context, start, lo, i + 1, true)
  {
    hide Before;
  }

  lemma GroupTakes(a: seq<Line>, b: seq<Line>, es: seq<Edit>, context: nat, h: Hunk, lo: nat, i: nat, h': Hunk)
    requires 0 < i < |es| && Group(a, b, es, context, h, lo, i, true, []) && End(h) == es[i - 1].oldEnd
    requires es[i].oldStart - h.oldStart <= 2 * context && ShowsEdit(a, b, es[i], h, h')
    ensures Group(a, b, es, context, h', lo, i + 1, true, [])
  {
    PlacedNext(es, context, h.oldStart, lo, i);
    assert lo < i;
    hide Placed;
    ShownNext(a, b, es, lo, i, h.oldStart);
    hide Shown, EditLines;
    LinesTaken(h.lines, Shown(a, b, es, lo, i, h.oldStart), h'.lines, EditLines(a, b, End(h), es[i]));
  }

  lemma GroupCloses(a: seq<Line>, b: seq<Line>, es: seq<Edit>, context: nat, h: Hunk, lo: nat, i: nat,
                    more: seq<HunkLine>)
    requires Group(a, b, es, context, h, lo, i, true, [])
    requires i < |es| && es[i].oldStart - h.oldStart > 2 * context
    ensures Group(a, b, es, context, h, lo, i, false, more)
  {
    hide Shown, Before;
  }

  lemma GroupInner(a: seq<Line>, b: seq<Line>, es: seq<Edit>, context: nat, h: Hunk, lo: nat, hi: nat,
                   more: seq<HunkLine>, more': seq<HunkLine>)
    requires Group(a, b, es, context, h, lo, hi, false, more)
    ensures Group(a, b, es, context, h, lo, hi, false, more')
  {
    hide Shown, Before;
  }

  lemma GroupEnds(a: seq<Line>, b: seq<Line>, es: seq<Edit>, context: nat, h: Hunk, lo: nat, hi: nat, h': Hunk,
                  more: seq<HunkLine>)
    requires Group(a, b, es, context, h, lo, hi, true, []) && h'.oldStart == h.oldStart && h'.lines == h.lines + more
    ensures Group(a, b, es, context, h', lo, hi, true, more)
  {
    hide Shown, Before;
  }

  /** A hunk stays what it is when another is opened behind it. */
  lemma GroupKept(a: seq<Line>, b: seq<Line>, es: seq<Edit>, context: nat, hs: seq<Hunk>, cuts: seq<nat>,
                  i: nat, j: nat, h': Hunk)
    requires j < |hs| == |cuts| - 1 && cuts[|hs|] == i < |es| && GroupAt(a, b, es, context, hs, cuts, j, [])
    requires es[i].oldStart - hs[|hs| - 1].oldStart > 2 * context
    ensures GroupAt(a, b, es, context, hs + [h'], cuts + [i + 1], j, [])
  {
    hide Group;
    if j + 1 == |hs| {
      GroupCloses(a, b, es, context, hs[j], cuts[j], i, []);
    }
  }

  lemma GroupOpens(a: seq<Line>, b: seq<Line>, es: seq<Edit>, context: nat, hs: seq<Hunk>, cuts: seq<nat>,
                   i: nat, h': Hunk)
    requires i < |es| && Grouped(a, b, es, context, hs, cuts, i, [])
    requires hs != [] ==> es[i].oldStart - hs[|hs| - 1].oldStart > 2 * context
    requires ShowsEdit(a, b, es[i], Hunk(Before(es[i].oldStart, context), 0, []), h')
    ensures Grouped(a, b, es, context, hs + [h'], cuts + [i + 1], i + 1, [])
  {
    GroupStarts(a, b, es, context, i, h');
    hide Group, ShowsEdit, Before;
    var hs', cuts' := hs + [h'], cuts + [i + 1];
    assert GroupAt(a, b, es, context, hs', cuts', |hs|, []);
    forall j: nat | j < |hs'|
      ensures GroupAt(a, b, es, context, hs', cuts', j, [])
    {
      if j < |hs| {
        assert GroupAt(a, b, es, context, hs, cuts, j, []);
        hide GroupAt;
        GroupKept(a, b, es, context, hs, cuts, i, j, h');
      }
    }
  }

  lemma GroupGrows(a: seq<Line>, b: seq<Line>, es: seq<Edit>, context: nat, hs: seq<Hunk>, h: Hunk, cuts: seq<nat>,
                   i: nat, h': Hunk)
    requires 0 < i < |es| && Grouped(a, b, es, context, hs + [h], cuts, i, []) && End(h) == es[i - 1].oldEnd
    requires es[i].oldStart - h.oldStart <= 2 * context && ShowsEdit(a, b, es[i], h, h')
    ensures Grouped(a, b, es, context, hs + [h'], cuts[..|hs| + 1] + [i + 1], i + 1, [])
  {
    var was, hs', cuts' := hs + [h], hs + [h'], cuts[..|hs| + 1] + [i + 1];
    var k := |hs|;
    hide Group, ShowsEdit;
    forall j: nat | j < |hs'|
      ensures GroupAt(a, b, es, context, hs', cuts', j, [])
    {
      assert GroupAt(a, b, es, context, was, cuts, j, []);
      if j == k {
        GroupTakes(a, b, es, context, h, cuts[k], i, h');
      }
    }
  }

  lemma GroupsEnd(a: seq<Line>, b: seq<Line>, es: seq<Edit>, context: nat, hs: seq<Hunk>, h: Hunk, cuts: seq<nat>,
                  h': Hunk, more: seq<HunkLine>)
    requires Grouped(a, b, es, context, hs + [h], cuts, |es|, []) && h'.oldStart == h.oldStart
    requires h'.lines == h.lines + more
    ensures Grouped(a, b, es, context, hs + [h'], cuts, |es|, more)
  {
    var was, hs' := hs + [h], hs + [h'];
    hide Group;
    forall j: nat | j < |hs'|
      ensures GroupAt(a, b, es, context, hs', cuts, j, more)
    {
      assert GroupAt(a, b, es, context, was, cuts, j, []);
      if j < |hs| {
        GroupInner(a, b, es, context, hs[j], cuts[j], cuts[j + 1], [], more);
      } else {
        GroupEnds(a, b, es, context, h, cuts[j], |es|, h', more);
      }
    }
  }

  /** The old lines behind the last edit that the last hunk shows, as many as the context or the file has. */
  function Trailing(a: seq<Line>, es: seq<Edit>, context: nat): seq<HunkLine> {
    if es == [] || es[|es| - 1].oldEnd > |a| then []
    else
      var end := es[|es| - 1].oldEnd;
      Contexts(a[end..Reach(end, context, |a|)])
  }

  /** The hunks once the first i edits went in. */
  ghost predicate Built(a: seq<Line>, b: seq<Line>, es: seq<Edit>, context: nat, i: nat, hs: seq<Hunk>)
    requires 0 < i <= |es|
  {
    hs != [] && AllAccurate(a, hs) && LastEnd(hs) == es[i - 1].oldEnd &&
    hs[|hs| - 1].oldStart == HunkStart(es, i - 1, context) &&
    (Disjoint(hs) <==> Roomy(es, i, context)) &&
    es[i - 1].newEnd <= |b| && (Disjoint(hs) ==> Applied(a, hs) == b[..es[i - 1].newEnd])
  }

  /** The hunk that takes the edit is open: the last one, or a new one at the start of its context. */
  ghost predicate Opening(a: seq<Line>, b: seq<Line>, es: seq<Edit>, context: nat, i: nat, hs: seq<Hunk>)
    requires i < |es| && es[i].oldEnd <= |a| && es[i].newEnd <= |b|
  {
    hs != [] && AllAccurate(a, hs) && hs[|hs| - 1].oldStart == HunkStart(es, i, context) &&
    LastEnd(hs) <= es[i].oldStart <= es[i].oldEnd && es[i].newStart <= es[i].newEnd &&
    (Disjoint(hs) <==> Roomy(es, i + 1, context)) &&
    (Disjoint(hs) ==> Applied(a, hs) + a[LastEnd(hs)..es[i].oldStart] == b[..es[i].newStart])
  }

  /** The i-th edit after a gap of equal lines. */
  ghost predicate Follows(a: seq<Line>, b: seq<Line>, es: seq<Edit>, i: nat)
    requires i < |es|
  {
    var p, q := if i == 0 then 0 else es[i - 1].oldEnd, if i == 0 then 0 else es[i - 1].newEnd;
    p <= es[i].oldStart <= es[i].oldEnd <= |a| && q <= es[i].newStart <= es[i].newEnd <= |b| &&
    a[p..es[i].oldStart] == b[q..es[i].newStart]
  }

  lemma CoversFollow(a: seq<Line>, b: seq<Line>, es: seq<Edit>, i: nat)
    requires i < |es|
    requires Covers(a, b, es[i..], if i == 0 then 0 else es[i - 1].oldEnd, if i == 0 then 0 else es[i - 1].newEnd)
    ensures Follows(a, b, es, i) && Covers(a, b, es[i + 1..], es[i].oldEnd, es[i].newEnd)
  {
    assert es[i..][1..] == es[i + 1..];
  }

  lemma NothingApplied(a: seq<Line>)
    ensures AllAccurate(a, []) && Disjoint([]) && Applied(a, []) == []
  {
  }

  lemma {:induction false} FirstOpened(a: seq<Line>, s: nat, t: nat)
    requires s <= t <= |a|
    ensures var hs := [Hunk(s, 0, [])];
            AllAccurate(a, hs) && Disjoint(hs) && Applied(a, hs) + a[s..t] == a[..t]
  {
    NothingApplied(a);
    hide Applied, OldSide, NewSide, AllAccurate;
    Opened(a, [], s);
    assert [] + [Hunk(s, 0, [])] == [Hunk(s, 0, [])];
    assert a[0..s] + a[s..t] == a[..t];
  }

  lemma OpensFirst(a: seq<Line>, b: seq<Line>, es: seq<Edit>, context: nat)
    requires es != [] && Follows(a, b, es, 0)
    ensures Opening(a, b, es, context, 0, [Hunk(Before(es[0].oldStart, context), 0, [])])
  {
    hide Applied, AllAccurate, Disjoint;
    FirstOpened(a, Before(es[0].oldStart, context), es[0].oldStart);
  }

  lemma OpensNext(a: seq<Line>, b: seq<Line>, es: seq<Edit>, context: nat, i: nat, hs: seq<Hunk>)
    requires 0 < i < |es| && Built(a, b, es, context, i, hs) && Follows(a, b, es, i)
    ensures Breaks(es, i, context) ==>
              Opening(a, b, es, context, i, hs + [Hunk(Before(es[i].oldStart, context), 0, [])])
    ensures !Breaks(es, i, context) ==> Opening(a, b, es, context, i, hs)
  {
    hide AllAccurate, Applied, Disjoint;
    var e, p, q := es[i], es[i - 1].oldEnd, es[i - 1].newEnd;
    assert b[..q] + b[q..e.newStart] == b[..e.newStart];
    if Breaks(es, i, context) {
      var s := Before(e.oldStart, context);
      Opened(a, hs, s);
      assert HunkStart(es, i - 1, context) >= 0 by { StartNatural(es, i - 1, context); }
      assert p <= s ==> a[p..s] + a[s..e.oldStart] == a[p..e.oldStart];
    }
  }

  lemma {:induction false} StartNatural(es: seq<Edit>, i: nat, context: nat)
    requires i < |es|
    ensures HunkStart(es, i, context) >= 0
    decreases i
  {
    if i > 0 {
      StartNatural(es, i - 1, context);
    }
  }

  lemma TakesEdit(a: seq<Line>, b: seq<Line>, es: seq<Edit>, context: nat, i: nat, hs: seq<Hunk>, h: Hunk, h': Hunk)
    requires i < |es| && es[i].oldEnd <= |a| && es[i].newEnd <= |b| && Opening(a, b, es, context, i, hs + [h])
    requires h'.oldStart == h.oldStart && End(h') == es[i].oldEnd
    requires OldSide(h'.lines) == OldSide(h.lines) + a[End(h)..es[i].oldEnd]
    requires NewSide(h'.lines) == NewSide(h.lines) + a[End(h)..es[i].oldStart] + b[es[i].newStart..es[i].newEnd]
    ensures Built(a, b, es, context, i + 1, hs + [h'])
  {
    hide OldSide, NewSide, Applied, Roomy, HunkStart;
    var e, was := es[i], hs + [h];
    var added := a[End(h)..e.oldStart] + b[e.newStart..e.newEnd];
    assert was[|hs|] == h && LastEnd(was) == End(h);
    assert Accurate(a, h);
    assert a[h.oldStart..End(h)] + a[End(h)..e.oldEnd] == a[h.oldStart..e.oldEnd];
    assert NewSide(h'.lines) == NewSide(h.lines) + added;
    Grown(a, hs, h, h', added);
    assert b[..e.newStart] + b[e.newStart..e.newEnd] == b[..e.newEnd];
    if Disjoint(was) {
      assert Applied(a, was) + added == Applied(a, was) + a[End(h)..e.oldStart] + b[e.newStart..e.newEnd];
    }
  }

  method Take(es: seq<Edit>, a: seq<Line>, b: seq<Line>, context: nat, i: nat, ghost hs: seq<Hunk>, h: Hunk)
    returns (h': Hunk)
    requires i < |es| && es[i].oldEnd <= |a| && es[i].newEnd <= |b| && Opening(a, b, es, context, i, hs + [h])
    ensures Built(a, b, es, context, i + 1, hs + [h']) && ShowsEdit(a, b, es[i], h, h')
  {
    hide OldSide, NewSide, Applied, Roomy, HunkStart, Built, AllAccurate, Disjoint;
    assert LastEnd(hs + [h]) == End(h);
    h' := AddEdit(h, es[i], a, b);
    TakesEdit(a, b, es, context, i, hs, h, h');
  }

  lemma NoHunks(a: seq<Line>, b: seq<Line>, context: nat)
    requires Covers(a, b, [], 0, 0)
    ensures AllAccurate(a, []) && Disjoint([]) && Roomy([], 0, context)
    ensures LastEnd([]) == 0 && Applied(a, []) + a[0..] == b
  {
  }

  /** The test for a new hunk, on the hunk built so far. */
  lemma BreakTest(a: seq<Line>, b: seq<Line>, es: seq<Edit>, context: nat, i: nat, hs: seq<Hunk>, h: Hunk)
    requires 0 < i < |es| && Built(a, b, es, context, i, hs + [h]) && Follows(a, b, es, i)
    ensures End(h) <= es[i].oldStart && es[i].oldEnd <= |a| && es[i].newEnd <= |b|
    ensures es[i].oldStart - h.oldStart > 2 * context <==> Breaks(es, i, context)
  {
    hide AllAccurate, Applied, Disjoint, Roomy, HunkStart;
    assert (hs + [h])[|hs|] == h;
  }

  lemma BuiltBounds(a: seq<Line>, b: seq<Line>, es: seq<Edit>, context: nat, hs: seq<Hunk>, h: Hunk)
    requires es != [] && Built(a, b, es, context, |es|, hs + [h])
    ensures End(h) <= |a|
  {
    hide Applied, Disjoint, Roomy, HunkStart, OldSide;
    assert (hs + [h])[|hs|] == h;
    assert Accurate(a, (hs + [h])[|hs|]);
  }

  lemma Finished(a: seq<Line>, b: seq<Line>, es: seq<Edit>, context: nat, hs: seq<Hunk>, h: Hunk, h': Hunk)
    requires es != [] && Built(a, b, es, context, |es|, hs + [h])
    requires Covers(a, b, [], es[|es| - 1].oldEnd, es[|es| - 1].newEnd)
    requires h'.oldStart == h.oldStart && End(h) <= End(h') <= |a|
    requires OldSide(h'.lines) == OldSide(h.lines) + a[End(h)..End(h')]
    requires NewSide(h'.lines) == NewSide(h.lines) + a[End(h)..End(h')]
    ensures var hs' := hs + [h'];
            AllAccurate(a, hs') && (Disjoint(hs') <==> Roomy(es, |es|, context)) &&
            (Disjoint(hs') ==> LastEnd(hs') <= |a| && Applied(a, hs') + a[LastEnd(hs')..] == b)
  {
    hide OldSide, NewSide, Applied, Roomy, HunkStart, Disjoint;
    var was := hs + [h];
    assert was[|hs|] == h && LastEnd(was) == End(h);
    assert Accurate(a, h);
    assert a[h.oldStart..End(h)] + a[End(h)..End(h')] == a[h.oldStart..End(h')];
    hide AllAccurate;
    Grown(a, hs, h, h', a[End(h)..End(h')]);
    if Disjoint(was) {
      RestFollows(Applied(a, was), a, b, End(h), End(h'), es[|es| - 1].newEnd);
    }
  }

  lemma RestFollows(x: seq<Line>, a: seq<Line>, b: seq<Line>, p: nat, p': nat, q: nat)
    requires p <= p' <= |a| && q <= |b| && x == b[..q] && a[p..] == b[q..]
    ensures x + a[p..p'] + a[p'..] == b
  {
    assert a[p..p'] + a[p'..] == a[p..];
    assert b[..q] + b[q..] == b;
    assert x + a[p..p'] + a[p'..] == x + (a[p..p'] + a[p'..]);
  }

  lemma LastEnds(a: seq<Line>, b: seq<Line>, es: seq<Edit>, context: nat, i: nat, hs: seq<Hunk>, h: Hunk)
    requires 0 < i <= |es| && Built(a, b, es, context, i, hs + [h])
    ensures End(h) == es[i - 1].oldEnd
  {
    hide AllAccurate, Applied, Disjoint, Roomy, HunkStart;
    assert (hs + [h])[|hs|] == h;
  }

  lemma NothingGrouped(a: seq<Line>, b: seq<Line>, es: seq<Edit>, context: nat)
    ensures Grouped(a, b, es, context, [], [0], 0, []) && Trailing(a, [], context) == []
  {
  }

  /** Every edit is shown in one hunk, in order, with context before it and behind the last one. The old
      side of every hunk is what the old file has there. The hunks do not overlap exactly when every new
      hunk has room for its context, and then applying them to the old file gives the new one. */
  method BuildHunks(edits: seq<Edit>, a: seq<Line>, b: seq<Line>, context: nat) returns (hunks: seq<Hunk>)
    requires Covers(a, b, edits, 0, 0)
    ensures hunks == [] <==> edits == []
    ensures exists cuts :: Grouped(a, b, edits, context, hunks, cuts, |edits|, Trailing(a, edits, context))
    ensures AllAccurate(a, hunks)
    ensures Disjoint(hunks) <==> Roomy(edits, |edits|, context)
    ensures Disjoint(hunks) ==> LastEnd(hunks) <= |a| && Applied(a, hunks) + a[LastEnd(hunks)..] == b
  {
    hide Covers, Built, Opening, Follows, AllAccurate, Applied, Disjoint, Roomy, OldSide, NewSide, HunkStart;
    hide Grouped, ShowsEdit, Breaks;
    NothingGrouped(a, b, edits, context);
    if edits == [] {
      assert Grouped(a, b, edits, context, [], [0], |edits|, Trailing(a, edits, context));
      NoHunks(a, b, context);
      return [];
    }
    assert edits[0..] == edits;
    CoversFollow(a, b, edits, 0);
    OpensFirst(a, b, edits, context);
    hunks := [];
    ghost var cuts: seq<nat> := [0, 1];
    var current := Hunk(Before(edits[0].oldStart, context), 0, []);
    assert hunks + [current] == [current];
    current := Take(edits, a, b, context, 0, hunks, current);
    GroupOpens(a, b, edits, context, hunks, [0], 0, current);
    assert [0] + [0 + 1] == cuts;
    for i := 1 to |edits|
      invariant Built(a, b, edits, context, i, hunks + [current])
      invariant Grouped(a, b, edits, context, hunks + [current], cuts, i, [])
      invariant |cuts| == |hunks| + 2
      invariant Covers(a, b, edits[i..], edits[i - 1].oldEnd, edits[i - 1].newEnd)
    {
      CoversFollow(a, b, edits, i);
      OpensNext(a, b, edits, context, i, hunks + [current]);
      BreakTest(a, b, edits, context, i, hunks, current);
      LastEnds(a, b, edits, context, i, hunks, current);
      var e := edits[i];
      var contextStart := if e.oldStart > End(current) then e.oldStart else End(current);
      if contextStart - current.oldStart > 2 * context {
        hunks := hunks + [current];
        current := Hunk(Before(e.oldStart, context), 0, []);
        current := Take(edits, a, b, context, i, hunks, current);
        GroupOpens(a, b, edits, context, hunks, cuts, i, current);
        cuts := cuts + [i + 1];
      } else {
        ghost var was := current;
        current := Take(edits, a, b, context, i, hunks, current);
        GroupGrows(a, b, edits, context, hunks, was, cuts, i, current);
        cuts := cuts[..|hunks| + 1] + [i + 1];
      }
    }
    BuiltBounds(a, b, edits, context, hunks, current);
    LastEnds(a, b, edits, context, |edits|, hunks, current);
    var last := TrailingContext(current, a, context);
    assert edits[|edits|..] == [];
    Finished(a, b, edits, context, hunks, current, last);
    GroupsEnd(a, b, edits, context, hunks, current, cuts, last, Trailing(a, edits, context));
    hunks := hunks + [last];
  }

  /** With three lines of context, a deletion of seven lines and an insertion one line behind it give
      overlapping hunks. */
  lemma CrowdedHunks()
    ensures var es := [Edit(OpDelete, 0, 7, 0, 0), Edit(OpInsert, 8, 8, 1, 2)];
            Covers(["0", "1", "2", "3", "4", "5", "6", "7", "8"], ["7", "x", "8"], es, 0, 0) && !Roomy(es, 2, 3)
  {
    var es := [Edit(OpDelete, 0, 7, 0, 0), Edit(OpInsert, 8, 8, 1, 2)];
    var a, b := ["0", "1", "2", "3", "4", "5", "6", "7", "8"], ["7", "x", "8"];
    assert es[1..] == [es[1]] && es[1..][1..] == [];
    assert a[8..] == ["8"] && b[2..] == ["8"];
    assert Covers(a, b, es[1..][1..], 8, 2);
    assert a[7..8] == ["7"] && b[0..1] == ["7"];
    assert Covers(a, b, es[1..], 7, 0);
    assert HunkStart(es, 0, 3) == 0;
    assert Breaks(es, 1, 3);
  }
}
