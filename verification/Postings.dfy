/** Posting lists of the inverted index: counting the terms of a document, intersecting lists, and
    ranking results. */
module Postings {
  import opened Common
  import opened Codec

  type Term = string

  /** Positions and counts are uint32 and wrap. */
  datatype Posting = Posting(docID: U32, frequency: U32, positions: seq<U32>)

  datatype SearchResult = SearchResult(file: string, score: nat)

  // ---------------------------------------------------------------------------------------------
  // Terms of one document
  // ---------------------------------------------------------------------------------------------

  /** Where a term occurs in a document, first to last. */
  function Occurrences(tokens: seq<Term>, t: Term): (ps: seq<U32>)
    ensures ps == [] <==> t !in tokens
  {
    if tokens == [] then []
    else
      var n := |tokens| - 1;
      Occurrences(tokens[..n], t) + (if tokens[n] == t then [n % P32] else [])
  }

  /** The positions, in ascending order, of a term. */
  ghost predicate PositionsOf(ps: seq<U32>, tokens: seq<Term>, t: Term) {
    (forall i, j :: 0 <= i < j < |ps| ==> ps[i] < ps[j]) &&
    forall p: U32 :: p in ps <==> p < |tokens| && tokens[p] == t
  }

  lemma PositionsNext(ps: seq<U32>, tokens: seq<Term>, t: Term, last: Term)
    requires PositionsOf(ps, tokens, t) && |tokens| < P32
    ensures PositionsOf(if last == t then ps + [|tokens|] else ps, tokens + [last], t)
  {
    var n, all := |tokens|, tokens + [last];
    assert forall i :: 0 <= i < |ps| ==> ps[i] in ps;
    assert forall p: U32 :: p < n ==> all[p] == tokens[p];
  }

  /** In documents of at most 2^32 tokens the positions are those of the term, first to last. */
  lemma {:induction false} OccurrencesAre(tokens: seq<Term>, t: Term)
    requires |tokens| <= P32
    ensures PositionsOf(Occurrences(tokens, t), tokens, t)
    decreases |tokens|
  {
    hide PositionsOf, Occurrences;
    if tokens != [] {
      var n := |tokens| - 1;
      var init, last := tokens[..n], tokens[n];
      assert tokens == init + [last];
      OccurrencesAre(init, t);
      OccurrencesStep(init, last, t);
      PositionsNext(Occurrences(init, t), init, t, last);
      if last == t {
        SmallMod(n);
      } else {
        assert Occurrences(init, t) + [] == Occurrences(init, t);
      }
    } else {
      NoPositions(t);
    }
  }

  lemma SmallMod(n: nat)
    requires n < P32
    ensures n % P32 == n
  {
  }

  lemma NoPositions(t: Term)
    ensures PositionsOf(Occurrences([], t), [], t)
  {
  }

  function PostingFor(docID: U32, tokens: seq<Term>, t: Term): Posting {
    var ps := Occurrences(tokens, t);
    Posting(docID, |ps| % P32, ps)
  }

  /** The map holds each term of the document, and only those, with its posting. */
  ghost predicate Counted(termFreq: map<Term, Posting>, docID: U32, tokens: seq<Term>) {
    forall t :: if t in tokens then t in termFreq && termFreq[t] == PostingFor(docID, tokens, t) else t !in termFreq
  }

  lemma CountOne(termFreq: map<Term, Posting>, docID: U32, tokens: seq<Term>, tok: Term)
    requires Counted(termFreq, docID, tokens)
    ensures var p := if tok in termFreq then termFreq[tok] else Posting(docID, 0, []);
            var p' := Posting(docID, (p.frequency + 1) % P32, p.positions + [|tokens| % P32]);
            Counted(termFreq[tok := p'], docID, tokens + [tok])
  {
    hide Occurrences;
    var p := if tok in termFreq then termFreq[tok] else Posting(docID, 0, []);
    var p' := Posting(docID, (p.frequency + 1) % P32, p.positions + [|tokens| % P32]);
    forall t {:trigger t in tokens}
      ensures t in tokens + [tok] <==> t in tokens || t == tok
      ensures PostingFor(docID, tokens + [tok], t) == if t == tok then p' else PostingFor(docID, tokens, t)
    {
      OccurrencesStep(tokens, tok, t);
    }
  }

  lemma OccurrencesStep(tokens: seq<Term>, tok: Term, t: Term)
    ensures Occurrences(tokens + [tok], t) == Occurrences(tokens, t) + (if t == tok then [|tokens| % P32] else [])
  {
    assert (tokens + [tok])[..|tokens|] == tokens;
  }

  /** Counts each term of a document in one pass. */
  method CountTerms(docID: U32, tokens: seq<Term>) returns (termFreq: map<Term, Posting>)
    ensures Counted(termFreq, docID, tokens)
  {
    hide Counted;
    termFreq := map[];
    assert Counted(termFreq, docID, []) by { NoneCounted(docID); }
    for pos := 0 to |tokens|
      invariant Counted(termFreq, docID, tokens[..pos])
    {
      var tok := tokens[pos];
      assert tokens[..pos + 1] == tokens[..pos] + [tok];
      CountOne(termFreq, docID, tokens[..pos], tok);
      var p := if tok in termFreq then termFreq[tok] else Posting(docID, 0, []);
      termFreq := termFreq[tok := Posting(docID, (p.frequency + 1) % P32, p.positions + [pos % P32])];
    }
    assert tokens[..|tokens|] == tokens;
  }

  lemma NoneCounted(docID: U32)
    ensures Counted(map[], docID, [])
  {
  }

  // ---------------------------------------------------------------------------------------------
  // Intersection
  // ---------------------------------------------------------------------------------------------

  /** The frequency a list gives a document; should it list a document twice, the last one counts. */
  function Frequency(list: seq<Posting>, id: U32): Option<U32> {
    if list == [] then None
    else if list[|list| - 1].docID == id then Some(list[|list| - 1].frequency)
    else Frequency(list[..|list| - 1], id)
  }

  function Both(a: Option<U32>, b: Option<U32>): Option<U32> {
    match (a, b)
    case (Some(x), Some(y)) => Some((x + y) % P32)
    case _ => None
  }

  /** The summed frequency of a document that is in all lists. */
  function Combined(lists: seq<seq<Posting>>, id: U32): Option<U32>
    requires lists != []
  {
    var n := |lists| - 1;
    if n == 0 then Frequency(lists[0], id)
    else Both(Combined(lists[..n], id), Frequency(lists[n], id))
  }

  /** A map from document to posting holds what the function says, and nothing else. */
  ghost predicate Holds(docIDs: map<U32, Posting>, want: U32 -> Option<U32>) {
    forall id: U32 ::
      match want(id)
      case None => id !in docIDs
      case Some(f) => id in docIDs && docIDs[id].docID == id && docIDs[id].frequency == f
  }

  method FirstList(list: seq<Posting>) returns (docIDs: map<U32, Posting>)
    ensures Holds(docIDs, id => Frequency(list, id))
  {
    docIDs := map[];
    for i := 0 to |list|
      invariant Holds(docIDs, id => Frequency(list[..i], id))
    {
      assert list[..i + 1][..i] == list[..i];
      docIDs := docIDs[list[i].docID := list[i]];
    }
    assert list[..|list|] == list;
  }

  method NextList(docIDs: map<U32, Posting>, list: seq<Posting>, ghost want: U32 -> Option<U32>)
    returns (next: map<U32, Posting>)
    requires Holds(docIDs, want)
    ensures Holds(next, id => Both(want(id), Frequency(list, id)))
  {
    next := map[];
    for i := 0 to |list|
      invariant Holds(next, id => Both(want(id), Frequency(list[..i], id)))
    {
      assert list[..i + 1][..i] == list[..i];
      var p := list[i];
      if p.docID in docIDs {
        var existing := docIDs[p.docID];
        next := next[p.docID := existing.(frequency := (existing.frequency + p.frequency) % P32)];
      }
    }
    assert list[..|list|] == list;
  }

  function IDs(ps: seq<Posting>): (ids: seq<U32>)
    ensures |ids| == |ps| && forall i :: 0 <= i < |ps| ==> ids[i] == ps[i].docID
  {
    seq(|ps|, i requires 0 <= i < |ps| => ps[i].docID)
  }

  /** Exactly the documents in all lists, each once, with their summed frequency, in any order. */
  method IntersectPostings(lists: seq<seq<Posting>>) returns (result: seq<Posting>)
    ensures lists == [] ==> result == []
    ensures Distinct(IDs(result))
    ensures lists != [] ==> forall id :: id in IDs(result) <==> Combined(lists, id).Some?
    ensures lists != [] ==>
              forall i :: 0 <= i < |result| ==> Combined(lists, result[i].docID) == Some(result[i].frequency)
  {
    hide Frequency;
    result := [];
    if lists == [] {
      return;
    }
    var docIDs := FirstList(lists[0]);
    assert lists[..1] == [lists[0]];
    for n := 1 to |lists|
      invariant Holds(docIDs, id => Combined(lists[..n], id))
    {
      assert lists[..n + 1][..n] == lists[..n];
      docIDs := NextList(docIDs, lists[n], id => Combined(lists[..n], id));
    }
    assert lists[..|lists|] == lists;
    result := Values(docIDs, id => Combined(lists, id));
  }

  /** The values of the map, in whatever order iteration produces them. */
  method Values(docIDs: map<U32, Posting>, ghost want: U32 -> Option<U32>) returns (result: seq<Posting>)
    requires Holds(docIDs, want)
    ensures Distinct(IDs(result))
    ensures forall id :: id in IDs(result) <==> want(id).Some?
    ensures forall i :: 0 <= i < |result| ==> want(result[i].docID) == Some(result[i].frequency)
  {
    result := [];
    var todo := docIDs.Keys;
    while todo != {}
      invariant todo <= docIDs.Keys
      invariant Distinct(IDs(result))
      invariant forall id :: id in IDs(result) <==> id in docIDs.Keys - todo
      invariant forall i :: 0 <= i < |result| ==> want(result[i].docID) == Some(result[i].frequency)
      decreases |todo|
    {
      var id :| id in todo;
      assert match want(id)
             case None => id !in docIDs
             case Some(f) => docIDs[id].docID == id && docIDs[id].frequency == f;
      ghost var was := result;
      assert id !in IDs(was);
      result := result + [docIDs[id]];
      todo := todo - {id};
      assert IDs(result) == IDs(was) + [id];
    }
  }

  // ---------------------------------------------------------------------------------------------
  // Ranking
  // ---------------------------------------------------------------------------------------------

  ghost predicate Descending(rs: seq<SearchResult>) {
    forall i, j :: 0 <= i < j < |rs| ==> rs[i].score >= rs[j].score
  }

  /** The first i results are sorted, and none after them scores higher. */
  ghost predicate Selected(rs: seq<SearchResult>, i: nat)
    requires i <= |rs|
  {
    Descending(rs[..i]) && forall p, q :: 0 <= p < i <= q < |rs| ==> rs[p].score >= rs[q].score
  }

  lemma SelectedEnds(rs: seq<SearchResult>)
    ensures Selected(rs, 0) && (Selected(rs, |rs|) ==> Descending(rs))
  {
    assert rs[..|rs|] == rs;
  }

  lemma SelectNext(rs: seq<SearchResult>, i: nat, best: nat)
    requires i <= best < |rs| && Selected(rs, i)
    requires forall q :: i <= q < |rs| ==> rs[best].score >= rs[q].score
    ensures var swapped := rs[i := rs[best]][best := rs[i]];
            Selected(swapped, i + 1) && multiset(swapped) == multiset(rs)
  {
    var swapped := rs[i := rs[best]][best := rs[i]];
    assert forall p :: 0 <= p < i ==> swapped[p] == rs[..i][p];
    assert swapped[i] == rs[best];
    forall p, q | 0 <= p < i + 1 <= q < |rs|
      ensures swapped[p].score >= swapped[q].score
    {
    }
  }

  method Swap(results: array<SearchResult>, i: nat, j: nat)
    requires i < results.Length && j < results.Length
    modifies results
    ensures results[..] == old(results[..][i := results[j]][j := results[i]])
  {
    results[i], results[j] := results[j], results[i];
  }

  method BestFrom(results: array<SearchResult>, i: nat) returns (best: nat)
    requires i < results.Length
    ensures i <= best < results.Length
    ensures forall q :: i <= q < results.Length ==> results[best].score >= results[q].score
  {
    best := i;
    for j := i + 1 to results.Length
      invariant i <= best < results.Length
      invariant forall q :: i <= q < j ==> results[best].score >= results[q].score
    {
      if results[j].score > results[best].score {
        best := j;
      }
    }
  }

  /** Selection sort by score, in place. */
  method SortResults(results: array<SearchResult>)
    modifies results
    ensures multiset(results[..]) == multiset(old(results[..])) && Descending(results[..])
  {
    SelectedEnds(results[..]);
    hide Selected, Descending;
    for i := 0 to results.Length
      invariant multiset(results[..]) == multiset(old(results[..]))
      invariant Selected(results[..], i)
    {
      var best := BestFrom(results, i);
      SelectNext(results[..], i, best);
      Swap(results, i, best);
    }
    SelectedEnds(results[..]);
  }
}
