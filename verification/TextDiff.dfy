/** `Diff` over whole texts: splitting into lines, the line diff, and merging of edits. */
module TextDiff {
  import opened EditDistance
  import opened LineDiff
  import EditMeaning

  function Merge(c: Edit, e: Edit): Edit {
    c.(oldEnd := e.oldEnd, newEnd := e.newEnd)
  }

  /** The list that starts with c and goes on with es, runs of one kind merged across their gaps. */
  function Compacted(c: Edit, es: seq<Edit>): (r: seq<Edit>)
    ensures r != []
    decreases |es|
  {
    if es == [] then [c]
    else if es[0].op == c.op then Compacted(Merge(c, es[0]), es[1..])
    else [c] + Compacted(es[0], es[1..])
  }

  ghost predicate Alternates(es: seq<Edit>) {
    forall i :: 0 < i < |es| ==> es[i].op != es[i - 1].op
  }

  lemma {:induction false} CompactedAlternates(c: Edit, es: seq<Edit>)
    ensures Alternates(Compacted(c, es)) && Compacted(c, es)[0].op == c.op
    decreases |es|
  {
    if es != [] {
      CompactedAlternates(Merge(c, es[0]), es[1..]);
      CompactedAlternates(es[0], es[1..]);
    }
  }

  /** Merging keeps the meaning: the merged list still leads from old to new. */
  lemma {:induction false} CompactedCovers(a: seq<Line>, b: seq<Line>, c: Edit, es: seq<Edit>, i: nat, j: nat)
    requires Covers(a, b, [c] + es, i, j)
    ensures Covers(a, b, Compacted(c, es), i, j)
    decreases |es|
  {
    assert ([c] + es)[1..] == es;
    if es == [] {
    } else if es[0].op == c.op {
      assert es == [es[0]] + es[1..];
      assert ([Merge(c, es[0])] + es[1..])[1..] == es[1..];
      CompactedCovers(a, b, Merge(c, es[0]), es[1..], i, j);
    } else {
      assert es == [es[0]] + es[1..];
      CompactedCovers(a, b, es[0], es[1..], c.oldEnd, c.newEnd);
      assert ([c] + Compacted(es[0], es[1..]))[1..] == Compacted(es[0], es[1..]);
    }
  }

  // ---------------------------------------------------------------------------------------------
  // What merging means, by the runs it cuts the edits into
  // ---------------------------------------------------------------------------------------------

  /** One edit stands for a run of edits of its kind: it starts where the first starts and ends where
      the last ends. */
  ghost predicate StandsFor(r: Edit, run: seq<Edit>) {
    run != [] && (forall i :: 0 <= i < |run| ==> run[i].op == r.op) &&
    r.oldStart == run[0].oldStart && r.newStart == run[0].newStart &&
    r.oldEnd == run[|run| - 1].oldEnd && r.newEnd == run[|run| - 1].newEnd
  }

  /** The j-th merged edit stands for the edits between the j-th cut and the next. */
  ghost predicate RunAt(edits: seq<Edit>, merged: seq<Edit>, cuts: seq<nat>, j: nat)
    requires j < |merged| == |cuts| - 1
  {
    cuts[j] < cuts[j + 1] <= |edits| && StandsFor(merged[j], edits[cuts[j]..cuts[j + 1]])
  }

  /** The cuts divide the edits into non-empty runs, one per merged edit. */
  ghost predicate CutInto(edits: seq<Edit>, merged: seq<Edit>, cuts: seq<nat>) {
    |cuts| == |merged| + 1 && cuts[0] == 0 && cuts[|merged|] == |edits| &&
    forall j: nat :: j < |merged| ==> RunAt(edits, merged, cuts, j)
  }

  /** The merged edits stand for the runs of one kind, none of which could be longer. */
  ghost predicate Merges(edits: seq<Edit>, merged: seq<Edit>) {
    Alternates(merged) && exists cuts :: CutInto(edits, merged, cuts)
  }

  lemma CutLast(edits: seq<Edit>, merged: seq<Edit>, cuts: seq<nat>, run: seq<Edit>, r: Edit)
    requires CutInto(edits, merged, cuts) && StandsFor(r, run)
    ensures CutInto(edits + run, merged + [r], cuts + [|edits + run|])
  {
    var edits', merged', cuts' := edits + run, merged + [r], cuts + [|edits + run|];
    forall j: nat | j < |merged'|
      ensures RunAt(edits', merged', cuts', j)
    {
      if j < |merged| {
        assert RunAt(edits, merged, cuts, j);
        assert edits'[cuts[j]..cuts[j + 1]] == edits[cuts[j]..cuts[j + 1]];
      } else {
        assert edits'[|edits|..|edits'|] == run;
      }
    }
  }

  lemma StandsLonger(r: Edit, run: seq<Edit>, e: Edit)
    requires StandsFor(r, run) && e.op == r.op
    ensures StandsFor(Merge(r, e), run + [e])
  {
  }

  /** The first j cuts of two divisions into alternating runs coincide. */
  lemma {:induction false} SameCuts(edits: seq<Edit>, m: seq<Edit>, cuts: seq<nat>, m': seq<Edit>, cuts': seq<nat>,
                                    j: nat)
    requires Alternates(m) && Alternates(m') && CutInto(edits, m, cuts) && CutInto(edits, m', cuts')
    requires j <= |m| && j <= |m'|
    ensures cuts[j] == cuts'[j]
  {
    if j > 0 {
      SameCuts(edits, m, cuts, m', cuts', j - 1);
      NotShorter(edits, m, cuts, m', cuts', j - 1);
      NotShorter(edits, m', cuts', m, cuts, j - 1);
    }
  }

  /** If a run of one kind goes on behind the j-th cut, the merged edits on both sides are of that kind. */
  lemma RunGoesOn(edits: seq<Edit>, m: seq<Edit>, cuts: seq<nat>, j: nat, r: Edit, end: nat)
    requires CutInto(edits, m, cuts) && j < |m|
    requires cuts[j] <= cuts[j + 1] < end <= |edits| && StandsFor(r, edits[cuts[j]..end])
    ensures j + 1 < |m| && m[j + 1].op == m[j].op
  {
    var i := j + 1;
    var k := cuts[i];
    assert RunAt(edits, m, cuts, j);
    assert i < |m| ==> RunAt(edits, m, cuts, i);
    var run, next, longer := edits[cuts[j]..k], edits[k..cuts[i + 1]], edits[cuts[j]..end];
    assert StandsFor(m[j], run) && StandsFor(m[i], next);
    assert run[0] == longer[0] && next[0] == edits[k] == longer[k - cuts[j]];
  }

  lemma NotShorter(edits: seq<Edit>, m: seq<Edit>, cuts: seq<nat>, m': seq<Edit>, cuts': seq<nat>, j: nat)
    requires Alternates(m) && CutInto(edits, m, cuts) && CutInto(edits, m', cuts')
    requires j < |m| && j < |m'| && cuts[j] == cuts'[j]
    ensures cuts[j + 1] >= cuts'[j + 1]
  {
    hide StandsFor;
    assert RunAt(edits, m, cuts, j) && RunAt(edits, m', cuts', j);
    if cuts[j + 1] < cuts'[j + 1] {
      RunGoesOn(edits, m, cuts, j, m'[j], cuts'[j + 1]);
    }
  }

  lemma LaterCuts(edits: seq<Edit>, m: seq<Edit>, cuts: seq<nat>, j: nat)
    requires CutInto(edits, m, cuts) && j <= |m|
    ensures cuts[j] == |edits| <==> j == |m|
  {
    assert j < |m| ==> RunAt(edits, m, cuts, j);
  }

  /** There is only one way to merge. */
  lemma MergesOnce(edits: seq<Edit>, m: seq<Edit>, m': seq<Edit>)
    requires Merges(edits, m) && Merges(edits, m')
    ensures m == m'
  {
    var cuts :| CutInto(edits, m, cuts);
    var cuts' :| CutInto(edits, m', cuts');
    var n := if |m| <= |m'| then |m| else |m'|;
    SameCuts(edits, m, cuts, m', cuts', n);
    LaterCuts(edits, m, cuts, n);
    LaterCuts(edits, m', cuts', n);
    hide StandsFor;
    forall j | 0 <= j < n
      ensures m[j] == m'[j]
    {
      SameCuts(edits, m, cuts, m', cuts', j);
      SameCuts(edits, m, cuts, m', cuts', j + 1);
      assert RunAt(edits, m, cuts, j) && RunAt(edits, m', cuts', j);
      OneStands(m[j], m'[j], edits[cuts[j]..cuts[j + 1]]);
    }
  }

  lemma OneStands(r: Edit, r': Edit, run: seq<Edit>)
    requires StandsFor(r, run) && StandsFor(r', run)
    ensures r == r'
  {
  }

  /** A run followed by edits, merged: the runs before it, then it and the rest. */
  lemma {:induction false} CompactedCuts(done: seq<Edit>, merged: seq<Edit>, cuts: seq<nat>, run: seq<Edit>, c: Edit,
                                         es: seq<Edit>) returns (cuts': seq<nat>)
    requires CutInto(done, merged, cuts) && StandsFor(c, run)
    ensures CutInto(done + run + es, merged + Compacted(c, es), cuts')
    decreases |es|
  {
    hide CutInto, StandsFor;
    if es == [] {
      CutLast(done, merged, cuts, run, c);
      cuts' := cuts + [|done + run|];
      assert done + run + es == done + run;
    } else {
      var e, rest := es[0], es[1..];
      assert es == [e] + rest;
      if e.op == c.op {
        StandsLonger(c, run, e);
        cuts' := CompactedCuts(done, merged, cuts, run + [e], Merge(c, e), rest);
        assert done + (run + [e]) + rest == done + run + es;
      } else {
        CutLast(done, merged, cuts, run, c);
        StandsAlone(e);
        cuts' := CompactedCuts(done + run, merged + [c], cuts + [|done + run|], [e], e, rest);
        assert done + run + [e] + rest == done + run + es;
        assert merged + [c] + Compacted(e, rest) == merged + ([c] + Compacted(e, rest));
      }
    }
  }

  lemma StandsAlone(e: Edit)
    ensures StandsFor(e, [e])
  {
  }

  /** The computed list merges the edits. */
  lemma CompactedMerges(c: Edit, es: seq<Edit>)
    ensures Merges([c] + es, Compacted(c, es))
  {
    StandsAlone(c);
    assert CutInto([], [], [0]);
    var cuts := CompactedCuts([], [], [0], [c], c, es);
    assert [] + [c] + es == [c] + es && [] + Compacted(c, es) == Compacted(c, es);
    CompactedAlternates(c, es);
  }

  /** What is left of an edit's range once equal lines within it are taken out: an insertion's new
      lines less the old ones, for a deletion the reverse. */
  function NetLines(e: Edit): int {
    var removed, added := e.oldEnd - e.oldStart, e.newEnd - e.newStart;
    if e.op.OpInsert? then added - removed else removed - added
  }

  function NetTotal(es: seq<Edit>): int {
    if es == [] then 0 else NetLines(es[0]) + NetTotal(es[1..])
  }

  /** Merging keeps the number of inserted and of deleted lines, because gaps are equally long. */
  lemma {:induction false} CompactedNet(a: seq<Line>, b: seq<Line>, c: Edit, es: seq<Edit>, i: nat, j: nat)
    requires Covers(a, b, [c] + es, i, j)
    ensures NetTotal(Compacted(c, es)) == NetTotal([c] + es)
    ensures (forall k :: 0 <= k < |[c] + es| ==> NetLines(([c] + es)[k]) > 0) ==>
              forall k :: 0 <= k < |Compacted(c, es)| ==> NetLines(Compacted(c, es)[k]) > 0
    decreases |es|
  {
    assert ([c] + es)[1..] == es;
    if es != [] {
      var e, rest := es[0], es[1..];
      assert es == [e] + rest;
      assert forall k :: 0 <= k < |es| ==> es[k] == ([c] + es)[k + 1];
      assert a[c.oldEnd..e.oldStart] == b[c.newEnd..e.newStart];
      if e.op == c.op {
        var m := Merge(c, e);
        assert ([m] + rest)[1..] == rest;
        assert NetLines(m) == NetLines(c) + NetLines(e);
        assert forall k :: 0 < k < |[m] + rest| ==> ([m] + rest)[k] == es[k];
        CompactedNet(a, b, m, rest, i, j);
      } else {
        CompactedNet(a, b, e, rest, c.oldEnd, c.newEnd);
        assert ([c] + Compacted(e, rest))[1..] == Compacted(e, rest);
      }
    }
  }

  lemma {:induction false} SingleNet(es: seq<Edit>)
    requires forall i :: 0 <= i < |es| ==> SingleLine(es[i])
    ensures NetTotal(es) == |es| && forall i :: 0 <= i < |es| ==> NetLines(es[i]) == 1
  {
    if es != [] {
      SingleNet(es[1..]);
    }
  }

  method CompactEdits(edits: seq<Edit>) returns (result: seq<Edit>)
    ensures Merges(edits, result)
    ensures result == if edits == [] then [] else Compacted(edits[0], edits[1..])
  {
    hide Merges;
    if edits == [] {
      NothingMerges();
    } else {
      CompactedMerges(edits[0], edits[1..]);
      assert [edits[0]] + edits[1..] == edits;
    }
    if |edits| <= 1 {
      assert |edits| == 1 ==> Compacted(edits[0], edits[1..]) == edits;
      return edits;
    }
    result := [];
    var current := edits[0];
    var i := 1;
    while i < |edits|
      invariant 1 <= i <= |edits|
      invariant result + Compacted(current, edits[i..]) == Compacted(edits[0], edits[1..])
    {
      var e := edits[i];
      assert edits[i..] == [e] + edits[i + 1..];
      if e.op == current.op {
        current := current.(oldEnd := e.oldEnd, newEnd := e.newEnd);
      } else {
        result := result + [current];
        current := e;
      }
      i := i + 1;
    }
    result := result + [current];
  }

  lemma NothingMerges()
    ensures Merges([], [])
  {
    assert CutInto([], [], [0]);
  }

  /** The pieces between newlines; never empty. */
  function Split(s: string): (pieces: seq<Line>)
    ensures pieces != []
  {
    if s == "" then [""]
    else if s[0] == '\n' then [""] + Split(s[1..])
    else var rest := Split(s[1..]); [[s[0]] + rest[0]] + rest[1..]
  }

  function Lines(s: string): seq<Line> {
    var pieces := Split(s);
    if pieces[|pieces| - 1] == "" then pieces[..|pieces| - 1] else pieces
  }

  /** Each line followed by a newline. */
  ghost function Joined(lines: seq<Line>): string {
    if lines == [] then "" else lines[0] + "\n" + Joined(lines[1..])
  }

  /** The text with its last line terminated. */
  ghost function Terminated(s: string): string {
    if s == "" || s[|s| - 1] == '\n' then s else s + "\n"
  }

  lemma {:induction false} JoinedAppend(xs: seq<Line>, y: Line)
    ensures Joined(xs + [y]) == Joined(xs) + y + "\n"
  {
    if xs != [] {
      assert (xs + [y])[1..] == xs[1..] + [y];
      JoinedAppend(xs[1..], y);
    }
  }

  lemma {:induction false} JoinedSplit(s: string)
    ensures Joined(Split(s)) == s + "\n"
  {
    if s == "" {
      assert Joined([""]) == "" + "\n" + Joined([]);
    } else {
      JoinedSplit(s[1..]);
      var rest := Split(s[1..]);
      assert s == [s[0]] + s[1..];
      if s[0] == '\n' {
        assert ([""] + rest)[1..] == rest;
        assert Joined([""] + rest) == "\n" + Joined(rest);
      } else {
        var head := [s[0]] + rest[0];
        assert ([head] + rest[1..])[1..] == rest[1..];
        assert Joined([head] + rest[1..]) == [s[0]] + Joined(rest);
      }
    }
  }

  lemma {:induction false} SplitLast(s: string)
    ensures var p := Split(s); p[|p| - 1] == "" <==> s == "" || s[|s| - 1] == '\n'
  {
    if s != "" {
      SplitLast(s[1..]);
    }
  }

  lemma {:induction false} SplitNewline(s: string)
    ensures Split(s + "\n") == Split(s) + [""]
  {
    if s != "" {
      SplitNewline(s[1..]);
      assert (s + "\n")[1..] == s[1..] + "\n";
    }
  }

  lemma SplitEnds(s: string)
    ensures var p := Split(s); p[|p| - 1] == "" <==> s == "" || s[|s| - 1] == '\n'
    ensures Split(s + "\n") == Split(s) + [""]
  {
    hide Split;
    SplitLast(s);
    SplitNewline(s);
  }

  /** Splitting loses nothing but whether the last line was terminated. */
  lemma JoinedLines(s: string)
    ensures Joined(Lines(s)) == Terminated(s)
  {
    var p := Split(s);
    JoinedSplit(s);
    SplitEnds(s);
    if p[|p| - 1] == "" {
      JoinedAppend(p[..|p| - 1], "");
      assert p == p[..|p| - 1] + [""];
      assert Joined(Lines(s)) + "" + "\n" == s + "\n";
      assert (Joined(Lines(s)) + "\n")[..|Joined(Lines(s))|] == (s + "\n")[..|s|];
    }
  }

  lemma {:induction false} SplitPlain(s: string)
    ensures forall i :: 0 <= i < |Split(s)| ==> '\n' !in Split(s)[i]
  {
    if s != "" {
      SplitPlain(s[1..]);
    }
  }

  /** No line holds a newline, and the lines joined are the text: nothing else could be its lines. */
  lemma {:induction false} LinesExactly(s: string, lines: seq<Line>)
    ensures lines == Lines(s) <==>
            Joined(lines) == Terminated(s) && forall i :: 0 <= i < |lines| ==> '\n' !in lines[i]
  {
    SplitPlain(s);
    JoinedLines(s);
    if Joined(lines) == Terminated(s) && forall i :: 0 <= i < |lines| ==> '\n' !in lines[i] {
      JoinedOnce(lines, Lines(s));
    }
  }

  lemma {:induction false} JoinedOnce(xs: seq<Line>, ys: seq<Line>)
    requires Joined(xs) == Joined(ys)
    requires forall i :: 0 <= i < |xs| ==> '\n' !in xs[i]
    requires forall i :: 0 <= i < |ys| ==> '\n' !in ys[i]
    ensures xs == ys
    decreases |xs|
  {
    if xs != [] && ys != [] {
      var x, y := xs[0], ys[0];
      FirstNewline(x, Joined(xs[1..]), y, Joined(ys[1..]));
      JoinedOnce(xs[1..], ys[1..]);
      assert xs == [x] + xs[1..] && ys == [y] + ys[1..];
    }
  }

  lemma FirstNewline(x: Line, rest: string, y: Line, rest': string)
    requires x + "\n" + rest == y + "\n" + rest' && '\n' !in x && '\n' !in y
    ensures x == y && rest == rest'
  {
    var s := x + "\n" + rest;
    assert s[|x|] == '\n' && s[|y|] == '\n';
    assert forall i :: 0 <= i < |x| ==> s[i] == x[i];
    assert forall i :: 0 <= i < |y| ==> s[i] == y[i];
    assert |x| == |y|;
    assert s[..|x|] == x && s[..|y|] == y && s[|x| + 1..] == rest && s[|y| + 1..] == rest';
  }

  /** Two texts have the same lines exactly when they agree up to the newline after the last line. */
  lemma SameLines(s: string, t: string)
    ensures Lines(s) == Lines(t) <==> Terminated(s) == Terminated(t)
  {
    JoinedLines(s);
    JoinedLines(t);
    LinesTerminated(s);
    LinesTerminated(t);
  }

  lemma LinesTerminated(s: string)
    ensures Lines(Terminated(s)) == Lines(s)
  {
    SplitEnds(s);
    if Terminated(s) != s {
      SplitEnds(s + "\n");
    }
  }

  /** What `Diff` starts from: a shortest script of single lines, or one edit if a text has no lines. */
  ghost predicate Script(a: seq<Line>, b: seq<Line>, raw: seq<Edit>) {
    Covers(a, b, raw, 0, 0) &&
    (a != [] && b != [] ==>
       |raw| == Dist(a, b, |a|, |b|) && forall i :: 0 <= i < |raw| ==> SingleLine(raw[i])) &&
    (a == [] ==> raw == [Edit(OpInsert, 0, 0, 0, |b|)]) &&
    (a != [] && b == [] ==> raw == [Edit(OpDelete, 0, |a|, 0, 0)])
  }

  lemma ScriptMerged(a: seq<Line>, b: seq<Line>, raw: seq<Edit>)
    requires Script(a, b, raw) && raw != []
    ensures var edits := Compacted(raw[0], raw[1..]);
            Covers(a, b, edits, 0, 0) && Alternates(edits) && NetTotal(edits) == Dist(a, b, |a|, |b|) &&
            (a != [] || b != [] ==> forall i :: 0 <= i < |edits| ==> NetLines(edits[i]) > 0)
  {
    assert raw == [raw[0]] + raw[1..];
    CompactedCovers(a, b, raw[0], raw[1..], 0, 0);
    CompactedAlternates(raw[0], raw[1..]);
    CompactedNet(a, b, raw[0], raw[1..], 0, 0);
    if a != [] && b != [] {
      SingleNet(raw);
    } else {
      EditMeaning.ListDistNil(a);
      EditMeaning.ListDistNil(b);
      assert NetTotal(raw[1..]) == 0;
    }
  }

  /** The edits merge the runs of a shortest script. They lead from the old lines to the new, alternate
      in kind, and insert and delete, gaps not counted, as many lines as the distance. */
  method Diff(oldText: string, newText: string) returns (edits: seq<Edit>)
    ensures Covers(Lines(oldText), Lines(newText), edits, 0, 0)
    ensures Alternates(edits)
    ensures edits == [] <==> Terminated(oldText) == Terminated(newText) && oldText != ""
    ensures exists raw :: Script(Lines(oldText), Lines(newText), raw) && Merges(raw, edits)
    ensures NetTotal(edits) == Dist(Lines(oldText), Lines(newText), |Lines(oldText)|, |Lines(newText)|)
    ensures oldText != "" || newText != "" ==> forall i :: 0 <= i < |edits| ==> NetLines(edits[i]) > 0
  {
    hide Dist, Merges, Covers, Alternates, Terminated, Lines;
    var oldLines, newLines := Lines(oldText), Lines(newText);
    var raw := MyersDiff(oldLines, newLines);
    edits := CompactEdits(raw);
    assert Script(oldLines, newLines, raw);
    if raw != [] {
      ScriptMerged(oldLines, newLines, raw);
    } else {
      NothingAlternates();
    }
    SameLines(oldText, newText);
    EditMeaning.ListDistSelf(oldLines);
    CoversNothing(oldLines, newLines);
    NoLines(oldText);
    NoLines(newText);
  }

  lemma NothingAlternates()
    ensures Alternates([]) && NetTotal([]) == 0
  {
  }

  lemma CoversNothing(a: seq<Line>, b: seq<Line>)
    ensures Covers(a, b, [], 0, 0) <==> a == b
  {
    assert a[0..] == a && b[0..] == b;
  }

  lemma NoLines(s: string)
    ensures Lines(s) == [] <==> s == ""
  {
    JoinedLines(s);
  }

  /** Applying the edits to the lines of the old text gives the new text, up to its final newline. */
  lemma DiffMeaning(oldText: string, newText: string, edits: seq<Edit>)
    requires Covers(Lines(oldText), Lines(newText), edits, 0, 0)
    ensures Fits(Lines(oldText), Lines(newText), edits, 0)
    ensures Joined(Patched(Lines(oldText), Lines(newText), edits, 0)) == Terminated(newText)
  {
    CoversPatches(Lines(oldText), Lines(newText), edits, 0, 0);
    JoinedLines(newText);
  }
}
