/** The inverted index: rebuilding it from the files of a tree, and answering queries. */
module SearchIndex {
  import opened Common
  import opened Codec
  import opened Postings
  import opened SearchSpec

  class Index {
    const tokenize: Tokenizer
    var terms: map<Term, seq<Posting>>
    var docs: map<U32, DocInfo>
    var nextDocID: U32
    ghost var indexed: seq<Doc>

    ghost predicate Valid()
      reads this
    {
      Lists(terms, indexed) && Registered(docs, indexed) && nextDocID == IdOf(|indexed|)
    }

    constructor (tokenize: Tokenizer)
      ensures Valid() && indexed == [] && this.tokenize == tokenize
    {
      this.tokenize := tokenize;
      terms, docs, nextDocID, indexed := map[], map[], 1, [];
    }

    /** Rebuilds the index from the files of a tree. */
    method Update(files: seq<TreeFile>)
      modifies this
      ensures Valid() && indexed == Indexed(files, tokenize)
      ensures exists at :: DocsAt(files, indexed, tokenize, at)
    {
      ghost var at := IndexedAt(files, tokenize);
      hide Lists, Registered, IsIndexable;
      terms, docs, nextDocID, indexed := map[], map[], 1, [];
      NothingIndexed();
      for i := 0 to |files|
        invariant Valid() && indexed == Indexed(files[..i], tokenize)
      {
        assert files[..i + 1][..i] == files[..i];
        var f := files[i];
        if IsIndexable(f.path) && f.content.Some? {
          AddDocument(f, f.content.value);
        }
      }
      assert files[..|files|] == files;
    }

    method AddDocument(f: TreeFile, content: Bytes)
      requires Valid()
      modifies this
      ensures Valid() && indexed == old(indexed) + [Doc(DocInfo(f.path, f.hash), tokenize(content, f.path))]
    {
      hide Lists, Registered, Counted;
      var docID := nextDocID;
      nextDocID := (nextDocID + 1) % P32;
      docs := docs[docID := DocInfo(f.path, f.hash)];
      var tokens := tokenize(content, f.path);
      var termFreq := CountTerms(docID, tokens);
      ghost var doc := Doc(DocInfo(f.path, f.hash), tokens);
      RegisterNext(old(docs), indexed, doc);
      var terms' := AddPostings(terms, termFreq);
      ListsAppend(terms, terms', indexed, doc, termFreq);
      terms := terms';
      indexed := indexed + [doc];
    }

    /** Any query: documents containing every term, once each, by summed term frequency. */
    method Search(q: Query) returns (results: seq<SearchResult>)
      requires Valid()
      ensures q.terms == [] ==> results == []
      ensures q.terms != [] && |indexed| <= P32 ==> Answers(results, indexed, QueryTerms(q), q.maxResults)
      ensures q.terms != [] && |indexed| <= P32 ==> Answered(results, indexed, q)
    {
      hide Matches, Combined, Registered, Lists, Distinct, Answered;
      if q.terms == [] {
        return [];
      }
      var found, allPostings := ListsFor(q);
      if !found {
        NoAnswers(indexed, QueryTerms(q), q.maxResults);
        AnswersMean([], indexed, q);
        return [];
      }
      var intersection := IntersectPostings(allPostings);
      var scored := Score(q, intersection);
      var sorted := new SearchResult[|scored|](i requires 0 <= i < |scored| => scored[i]);
      assert sorted[..] == scored;
      SortResults(sorted);
      results := Cut(sorted[..], q.maxResults);
      if |indexed| <= P32 {
        AnswersMean(results, indexed, q);
      }
    }

    /** The posting list of every query term, unless some term is not indexed. */
    method ListsFor(q: Query) returns (found: bool, allPostings: seq<seq<Posting>>)
      requires Valid()
      ensures found ==> allPostings == ListsOf(indexed, QueryTerms(q))
      ensures !found ==> Matching(indexed, QueryTerms(q)) == []
    {
      hide PostingsOf, Matching, Registered;
      allPostings := [];
      for i := 0 to |q.terms|
        invariant |allPostings| == i
        invariant forall j :: 0 <= j < i ==> allPostings[j] == PostingsOf(indexed, QueryTerms(q)[j])
      {
        var term := if q.caseSensitive then q.terms[i] else ToLower(q.terms[i]);
        assert term == QueryTerms(q)[i];
        if term in terms {
          allPostings := allPostings + [terms[term]];
        } else {
          UnlistedTerm(indexed, QueryTerms(q), i);
          return false, [];
        }
      }
      found := true;
    }

    method Score(q: Query, intersection: seq<Posting>) returns (results: seq<SearchResult>)
      requires Valid() && q.terms != []
      requires Distinct(IDs(intersection))
      requires var lists := ListsOf(indexed, QueryTerms(q));
               (forall id :: id in IDs(intersection) <==> Combined(lists, id).Some?) &&
               forall i :: 0 <= i < |intersection| ==>
                 Combined(lists, intersection[i].docID) == Some(intersection[i].frequency)
      ensures |indexed| <= P32 ==> multiset(results) == multiset(Matches(indexed, QueryTerms(q)))
    {
      hide Matches, Combined, Registered, Lists, Distinct, ListsOf;
      results := [];
      for i := 0 to |intersection|
        invariant |indexed| <= P32 ==> |results| == i
        invariant |indexed| <= P32 ==> forall j :: 0 <= j < i ==>
          intersection[j].docID in docs &&
          results[j] == SearchResult(docs[intersection[j].docID].path, intersection[j].frequency)
      {
        var p := intersection[i];
        if |indexed| <= P32 {
          HitsRegistered(indexed, docs, QueryTerms(q), p.docID);
        }
        if p.docID in docs {
          results := results + [SearchResult(docs[p.docID].path, p.frequency)];
        }
      }
      if |indexed| <= P32 {
        HitsAreMatches(indexed, docs, QueryTerms(q), intersection, results);
      }
    }
  }

  lemma NoAnswers(docs: seq<Doc>, ts: seq<Term>, max: int)
    requires Matching(docs, ts) == []
    ensures Answers([], docs, ts, max)
  {
    var none: seq<SearchResult> := [];
    assert Matches(docs, ts) == none && Cut(none, max) == none && Descending(none);
  }

  /** Appends each posting to the list of its term, in whatever order the map is traversed. */
  method AddPostings(terms: map<Term, seq<Posting>>, termFreq: map<Term, Posting>)
    returns (terms': map<Term, seq<Posting>>)
    ensures Appended(terms, terms', termFreq, termFreq.Keys)
  {
    hide Appended;
    terms' := terms;
    var todo := termFreq.Keys;
    ghost var done: set<Term> := {};
    NoneAppended(terms, termFreq);
    while todo != {}
      invariant todo !! done && todo + done == termFreq.Keys
      invariant Appended(terms, terms', termFreq, done)
      decreases |todo|
    {
      var term :| term in todo;
      AppendNext(terms, terms', termFreq, done, term);
      terms' := terms'[term := ListOf(terms', term) + [termFreq[term]]];
      todo, done := todo - {term}, done + {term};
    }
    assert done == termFreq.Keys;
  }
}
