/** What a rebuilt index contains, and what a query over it must answer. */
module SearchSpec {
  import opened Common
  import opened Codec
  import opened Postings

  /** A file met by the tree walk; no content if its blob cannot be read. */
  datatype TreeFile = TreeFile(path: string, hash: Hash, content: Option<Bytes>)

  datatype DocInfo = DocInfo(path: string, hash: Hash)

  datatype Query = Query(terms: seq<Term>, caseSensitive: bool, maxResults: int)

  /** An indexed document, as the specification sees it. */
  datatype Doc = Doc(info: DocInfo, tokens: seq<Term>)

  const EXTENSIONS := [
    ".go", ".rs", ".c", ".cpp", ".h", ".py", ".js", ".ts", ".java", ".rb", ".md", ".txt", ".yaml", ".yml", ".json",
    ".toml", ".xml", ".html", ".css", ".sh", ".sql", ".proto"]

  predicate HasSuffix(path: string, ext: string) {
    |path| >= |ext| && path[|path| - |ext|..] == ext
  }

  predicate IsIndexable(path: string) {
    exists i :: 0 <= i < |EXTENSIONS| && HasSuffix(path, EXTENSIONS[i])
  }

  /** The ASCII letters only. */
  function ToLower(s: string): (l: string)
    ensures |l| == |s|
  {
    seq(|s|, i requires 0 <= i < |s| => if 'A' <= s[i] <= 'Z' then (s[i] as int + 32) as char else s[i])
  }

  type Tokenizer = (Bytes, string) -> seq<Term>

  /** The documents an update indexes: readable files with a text extension, in walk order. */
  function Indexed(files: seq<TreeFile>, tokenize: Tokenizer): seq<Doc> {
    if files == [] then []
    else
      var f := files[|files| - 1];
      Indexed(files[..|files| - 1], tokenize) +
      (if IsIndexable(f.path) && f.content.Some? then
         [Doc(DocInfo(f.path, f.hash), tokenize(f.content.value, f.path))]
       else [])
  }

  /** A path is indexed exactly if it ends in one of the extensions. */
  lemma IndexableExactly(path: string)
    ensures IsIndexable(path) <==> exists stem: string, i :: 0 <= i < |EXTENSIONS| && path == stem + EXTENSIONS[i]
  {
    if i :| 0 <= i < |EXTENSIONS| && HasSuffix(path, EXTENSIONS[i]) {
      assert path == path[..|path| - |EXTENSIONS[i]|] + EXTENSIONS[i];
    }
    if stem: string, i :| 0 <= i < |EXTENSIONS| && path == stem + EXTENSIONS[i] {
      assert HasSuffix(path, EXTENSIONS[i]);
    }
  }

  predicate Wanted(f: TreeFile) { IsIndexable(f.path) && f.content.Some? }

  /** The places name, in order, exactly the files that are indexed, and each document is its file's. */
  ghost predicate DocsAt(files: seq<TreeFile>, docs: seq<Doc>, tokenize: Tokenizer, at: seq<nat>) {
    |docs| == |at| && (forall i, j :: 0 <= i < j < |at| ==> at[i] < at[j]) &&
    (forall p: nat :: p in at <==> p < |files| && Wanted(files[p])) &&
    forall i :: 0 <= i < |at| ==>
      at[i] < |files| && files[at[i]].content.Some? &&
      docs[i] == Doc(DocInfo(files[at[i]].path, files[at[i]].hash),
                     tokenize(files[at[i]].content.value, files[at[i]].path))
  }

  lemma DocsAtNext(files: seq<TreeFile>, docs: seq<Doc>, tokenize: Tokenizer, at: seq<nat>, n: nat)
    requires n + 1 == |files| && DocsAt(files[..n], docs, tokenize, at)
    ensures !Wanted(files[n]) ==> DocsAt(files, docs, tokenize, at)
    ensures Wanted(files[n]) ==>
              DocsAt(files, docs + [Doc(DocInfo(files[n].path, files[n].hash),
                                        tokenize(files[n].content.value, files[n].path))], tokenize, at + [n])
  {
    hide IsIndexable;
    var init := files[..n];
    assert forall p :: 0 <= p < n ==> init[p] == files[p];
    assert forall p: nat :: p in at + [n] <==> p in at || p == n;
  }

  /** An update's documents are those of the indexable, readable files, each once and in walk order. */
  lemma {:induction false} IndexedAt(files: seq<TreeFile>, tokenize: Tokenizer) returns (at: seq<nat>)
    ensures DocsAt(files, Indexed(files, tokenize), tokenize, at)
  {
    at := [];
    if files != [] {
      hide DocsAt, IsIndexable;
      var n := |files| - 1;
      at := IndexedAt(files[..n], tokenize);
      DocsAtNext(files, Indexed(files[..n], tokenize), tokenize, at, n);
      if Wanted(files[n]) {
        at := at + [n];
      } else {
        assert Indexed(files, tokenize) == Indexed(files[..n], tokenize);
      }
    }
  }

  /** The uint32 number of the k-th document, counting from one. */
  function IdOf(k: nat): U32 { (k + 1) % P32 }

  function PostingsOf(docs: seq<Doc>, t: Term): seq<Posting> {
    if docs == [] then []
    else
      var n := |docs| - 1;
      PostingsOf(docs[..n], t) + (if t in docs[n].tokens then [PostingFor(IdOf(n), docs[n].tokens, t)] else [])
  }

  /** Every term is listed with exactly its postings; terms of no document are not listed. */
  ghost predicate Lists(terms: map<Term, seq<Posting>>, docs: seq<Doc>) {
    forall t :: if PostingsOf(docs, t) == [] then t !in terms else t in terms && terms[t] == PostingsOf(docs, t)
  }

  ghost predicate Registered(infos: map<U32, DocInfo>, docs: seq<Doc>) {
    |docs| <= P32 ==> forall k :: 0 <= k < |docs| ==> IdOf(k) in infos && infos[IdOf(k)] == docs[k].info
  }

  lemma ListsAppend(terms: map<Term, seq<Posting>>, terms': map<Term, seq<Posting>>, docs: seq<Doc>, doc: Doc,
                    termFreq: map<Term, Posting>)
    requires Lists(terms, docs) && Counted(termFreq, IdOf(|docs|), doc.tokens)
    requires Appended(terms, terms', termFreq, termFreq.Keys)
    ensures Lists(terms', docs + [doc])
  {
    hide PostingFor, IdOf;
    var docs' := docs + [doc];
    assert docs'[..|docs|] == docs;
    forall t
      ensures if PostingsOf(docs', t) == [] then t !in terms' else t in terms' && terms'[t] == PostingsOf(docs', t)
    {
      assert t in terms' <==> t in terms || t in termFreq;
    }
  }

  lemma RegisterNext(infos: map<U32, DocInfo>, docs: seq<Doc>, doc: Doc)
    requires Registered(infos, docs)
    ensures Registered(infos[IdOf(|docs|) := doc.info], docs + [doc])
  {
  }

  lemma NothingIndexed()
    ensures Lists(map[], []) && Registered(map[], [])
  {
  }

  function ListOf(terms: map<Term, seq<Posting>>, t: Term): seq<Posting> {
    if t in terms then terms[t] else []
  }

  /** The postings of the terms in `done` were appended to their lists. */
  ghost predicate Appended(before: map<Term, seq<Posting>>, after: map<Term, seq<Posting>>,
                           termFreq: map<Term, Posting>, done: set<Term>)
    requires done <= termFreq.Keys
  {
    after.Keys == before.Keys + done &&
    forall t :: t in after ==> after[t] == ListOf(before, t) + (if t in done then [termFreq[t]] else [])
  }

  lemma AppendNext(before: map<Term, seq<Posting>>, after: map<Term, seq<Posting>>, termFreq: map<Term, Posting>,
                   done: set<Term>, term: Term)
    requires done <= termFreq.Keys && Appended(before, after, termFreq, done)
    requires term in termFreq && term !in done
    ensures Appended(before, after[term := ListOf(after, term) + [termFreq[term]]], termFreq, done + {term})
  {
  }

  lemma NoneAppended(terms: map<Term, seq<Posting>>, termFreq: map<Term, Posting>)
    ensures Appended(terms, terms, termFreq, {})
  {
  }

  // ---------------------------------------------------------------------------------------------
  // Queries
  // ---------------------------------------------------------------------------------------------

  function QueryTerms(q: Query): (ts: seq<Term>)
    ensures |ts| == |q.terms|
  {
    seq(|q.terms|, i requires 0 <= i < |q.terms| => if q.caseSensitive then q.terms[i] else ToLower(q.terms[i]))
  }

  predicate ContainsAll(tokens: seq<Term>, ts: seq<Term>) {
    forall i :: 0 <= i < |ts| ==> ts[i] in tokens
  }

  /** How often the query terms occur in a document, a repeated query term counting repeatedly. */
  function Weight(tokens: seq<Term>, ts: seq<Term>): nat {
    if ts == [] then 0 else Weight(tokens, ts[..|ts| - 1]) + multiset(tokens)[ts[|ts| - 1]]
  }

  /** The documents that contain every query term, in document order. */
  function Matching(docs: seq<Doc>, ts: seq<Term>): seq<nat> {
    if docs == [] then []
    else
      var n := |docs| - 1;
      Matching(docs[..n], ts) + (if ContainsAll(docs[n].tokens, ts) then [n] else [])
  }

  /** Weights are summed in uint32 arithmetic. */
  function ResultOf(doc: Doc, ts: seq<Term>): SearchResult {
    SearchResult(doc.info.path, Weight(doc.tokens, ts) % P32)
  }

  lemma {:induction false} MatchingIs(docs: seq<Doc>, ts: seq<Term>)
    ensures Distinct(Matching(docs, ts))
    ensures forall k: nat :: k in Matching(docs, ts) <==> k < |docs| && ContainsAll(docs[k].tokens, ts)
    decreases |docs|
  {
    hide ContainsAll;
    if docs != [] {
      var n := |docs| - 1;
      MatchingIs(docs[..n], ts);
      assert n !in Matching(docs[..n], ts);
    }
  }

  function Matches(docs: seq<Doc>, ts: seq<Term>): (rs: seq<SearchResult>)
    ensures |rs| == |Matching(docs, ts)|
  {
    MatchingIs(docs, ts);
    var ks := Matching(docs, ts);
    seq(|ks|, i requires 0 <= i < |ks| => assert ks[i] in ks; ResultOf(docs[ks[i]], ts))
  }

  function Cut(full: seq<SearchResult>, max: int): seq<SearchResult> {
    if max > 0 && |full| > max then full[..max] else full
  }

  /** The matching documents, each once, best first, cut to the best max; ties in any order. */
  ghost predicate Answers(results: seq<SearchResult>, docs: seq<Doc>, ts: seq<Term>, max: int) {
    exists full :: multiset(full) == multiset(Matches(docs, ts)) && Descending(full) && results == Cut(full, max)
  }

  /** What cutting loses is never better than what it keeps. */
  lemma {:induction false} KeptAreBest(results: seq<SearchResult>, docs: seq<Doc>, ts: seq<Term>, max: int, k: nat,
                                       i: nat)
    requires Answers(results, docs, ts, max)
    requires k < |docs| && ContainsAll(docs[k].tokens, ts) && i < |results|
    ensures ResultOf(docs[k], ts) in results || results[i].score >= ResultOf(docs[k], ts).score
    ensures max > 0 ==> |results| == if |Matching(docs, ts)| > max then max else |Matching(docs, ts)|
  {
    hide ContainsAll, ResultOf;
    var full :| multiset(full) == multiset(Matches(docs, ts)) && Descending(full) && results == Cut(full, max);
    assert |full| == |multiset(full)| == |Matches(docs, ts)|;
    MatchingIs(docs, ts);
    var ks := Matching(docs, ts);
    var p :| 0 <= p < |ks| && ks[p] == k;
    var r := Matches(docs, ts)[p];
    assert r in multiset(full);
    var q :| 0 <= q < |full| && full[q] == r;
    assert q < |results| ==> results[q] == r;
  }

  // ---------------------------------------------------------------------------------------------
  // What a query asks for, letter by letter
  // ---------------------------------------------------------------------------------------------

  predicate Capital(c: char) { 'A' <= c <= 'Z' }

  /** The same character, or the same ASCII letter in the other case. */
  predicate SameLetter(c: char, d: char) {
    c == d || (Capital(c) && d as int == c as int + 32) || (Capital(d) && c as int == d as int + 32)
  }

  ghost predicate SameUpToCase(s: string, t: string) {
    |s| == |t| && forall i :: 0 <= i < |s| ==> SameLetter(s[i], t[i])
  }

  ghost predicate NoCapitals(s: string) {
    forall i :: 0 <= i < |s| ==> !Capital(s[i])
  }

  /** Lowering a string gives the one string without capitals that agrees with it up to case. */
  lemma LowerExactly(s: string, t: string)
    ensures t == ToLower(s) <==> NoCapitals(t) && SameUpToCase(s, t)
  {
    if NoCapitals(t) && SameUpToCase(s, t) {
      forall i | 0 <= i < |s|
        ensures t[i] == ToLower(s)[i]
      {
        assert SameLetter(s[i], t[i]) && !Capital(t[i]);
      }
    }
  }

  lemma LowerSame(s: string, s': string)
    requires SameUpToCase(s, s')
    ensures ToLower(s) == ToLower(s')
  {
    forall i | 0 <= i < |s|
      ensures ToLower(s)[i] == ToLower(s')[i]
    {
      assert SameLetter(s[i], s'[i]);
    }
  }

  /** The token that term i of a query asks for: the term itself, or the one that agrees with it up to
      case and has no capitals. */
  ghost predicate AsksFor(q: Query, i: nat, token: Term)
    requires i < |q.terms|
  {
    if q.caseSensitive then token == q.terms[i] else NoCapitals(token) && SameUpToCase(q.terms[i], token)
  }

  ghost predicate HasAsked(tokens: seq<Term>, q: Query, i: nat)
    requires i < |q.terms|
  {
    exists j :: 0 <= j < |tokens| && AsksFor(q, i, tokens[j])
  }

  /** The document has for every term of the query the token it asks for. */
  ghost predicate HasAll(tokens: seq<Term>, q: Query) {
    forall i: nat :: i < |q.terms| ==> HasAsked(tokens, q, i)
  }

  lemma AskedToken(q: Query, i: nat, token: Term)
    requires i < |q.terms|
    ensures token == QueryTerms(q)[i] <==> AsksFor(q, i, token)
  {
    hide ToLower, NoCapitals, SameUpToCase;
    LowerExactly(q.terms[i], token);
  }

  lemma HasAllIs(tokens: seq<Term>, q: Query)
    ensures HasAll(tokens, q) <==> ContainsAll(tokens, QueryTerms(q))
  {
    hide AsksFor, QueryTerms;
    var ts := QueryTerms(q);
    if HasAll(tokens, q) {
      forall i: nat | i < |ts|
        ensures ts[i] in tokens
      {
        assert HasAsked(tokens, q, i);
        var j :| 0 <= j < |tokens| && AsksFor(q, i, tokens[j]);
        AskedToken(q, i, tokens[j]);
      }
    }
    if ContainsAll(tokens, ts) {
      forall i: nat | i < |q.terms|
        ensures HasAsked(tokens, q, i)
      {
        assert ts[i] in tokens;
        var j :| 0 <= j < |tokens| && tokens[j] == ts[i];
        AskedToken(q, i, tokens[j]);
      }
    }
  }

  /** The places of a document where term i of the query finds the token it asks for. */
  ghost function PlacesAsked(tokens: seq<Term>, q: Query, i: nat): set<nat>
    requires i < |q.terms|
  {
    set j: nat | j < |tokens| && AsksFor(q, i, tokens[j])
  }

  /** How many places the first n terms of the query find, each term counted for itself. */
  ghost function Found(tokens: seq<Term>, q: Query, n: nat): nat
    requires n <= |q.terms|
  {
    if n == 0 then 0 else Found(tokens, q, n - 1) + |PlacesAsked(tokens, q, n - 1)|
  }

  /** The document has all the query asks for, and the result says its path and how often, in 32 bits. */
  ghost predicate IsHit(r: SearchResult, doc: Doc, q: Query) {
    HasAll(doc.tokens, q) && r.file == doc.info.path && r.score == Found(doc.tokens, q, |q.terms|) % P32
  }

  /** Every result is a document that has all the query asks for; every such document is a result, or
      the results are as many as may be and none scores below it; and the best come first. */
  ghost predicate Answered(results: seq<SearchResult>, docs: seq<Doc>, q: Query) {
    Descending(results) && (q.maxResults > 0 ==> |results| <= q.maxResults) &&
    (forall i :: 0 <= i < |results| ==> exists k :: 0 <= k < |docs| && IsHit(results[i], docs[k], q)) &&
    forall k, r :: 0 <= k < |docs| && IsHit(r, docs[k], q) ==>
      r in results ||
      (0 < q.maxResults == |results| && forall i :: 0 <= i < |results| ==> results[i].score >= r.score)
  }

  lemma AnswersOnly(results: seq<SearchResult>, docs: seq<Doc>, ts: seq<Term>, max: int, i: nat) returns (k: nat)
    requires Answers(results, docs, ts, max) && i < |results|
    ensures k < |docs| && ContainsAll(docs[k].tokens, ts) && results[i] == ResultOf(docs[k], ts)
  {
    hide ContainsAll, ResultOf;
    var full :| multiset(full) == multiset(Matches(docs, ts)) && Descending(full) && results == Cut(full, max);
    assert results[i] == full[i] && full[i] in multiset(full);
    assert results[i] in Matches(docs, ts);
    var p :| 0 <= p < |Matches(docs, ts)| && Matches(docs, ts)[p] == results[i];
    MatchingIs(docs, ts);
    k := Matching(docs, ts)[p];
    assert k in Matching(docs, ts);
  }

  lemma AnswersCut(results: seq<SearchResult>, docs: seq<Doc>, ts: seq<Term>, max: int, k: nat)
    requires Answers(results, docs, ts, max) && k < |docs| && ContainsAll(docs[k].tokens, ts)
    requires ResultOf(docs[k], ts) !in results
    ensures 0 < max == |results|
  {
    hide ContainsAll, ResultOf;
    var full :| multiset(full) == multiset(Matches(docs, ts)) && Descending(full) && results == Cut(full, max);
    MatchingIs(docs, ts);
    var p :| 0 <= p < |Matching(docs, ts)| && Matching(docs, ts)[p] == k;
    assert Matches(docs, ts)[p] == ResultOf(docs[k], ts);
    assert ResultOf(docs[k], ts) in multiset(full);
  }

  ghost function PlacesBelow(tokens: seq<Term>, q: Query, i: nat, n: nat): set<nat>
    requires i < |q.terms| && n <= |tokens|
  {
    set j: nat | j < n && AsksFor(q, i, tokens[j])
  }

  lemma {:induction false} PlacesCount(tokens: seq<Term>, q: Query, i: nat, n: nat)
    requires i < |q.terms| && n <= |tokens|
    ensures multiset(tokens[..n])[QueryTerms(q)[i]] == |PlacesBelow(tokens, q, i, n)|
  {
    hide QueryTerms, AsksFor;
    if n > 0 {
      PlacesCount(tokens, q, i, n - 1);
      AskedToken(q, i, tokens[n - 1]);
      assert tokens[..n] == tokens[..n - 1] + [tokens[n - 1]];
      var was := PlacesBelow(tokens, q, i, n - 1);
      assert PlacesBelow(tokens, q, i, n) == if AsksFor(q, i, tokens[n - 1]) then was + {n - 1} else was;
    } else {
      assert PlacesBelow(tokens, q, i, 0) == {};
    }
  }

  lemma {:induction false} FoundIsWeight(tokens: seq<Term>, q: Query, n: nat)
    requires n <= |q.terms|
    ensures Found(tokens, q, n) == Weight(tokens, QueryTerms(q)[..n])
  {
    hide QueryTerms, AsksFor;
    var ts := QueryTerms(q);
    if n > 0 {
      FoundIsWeight(tokens, q, n - 1);
      assert ts[..n][..n - 1] == ts[..n - 1];
      PlacesCount(tokens, q, n - 1, |tokens|);
      assert tokens[..|tokens|] == tokens;
      assert PlacesAsked(tokens, q, n - 1) == PlacesBelow(tokens, q, n - 1, |tokens|);
    }
  }

  lemma HitIs(r: SearchResult, doc: Doc, q: Query)
    ensures IsHit(r, doc, q) <==> ContainsAll(doc.tokens, QueryTerms(q)) && r == ResultOf(doc, QueryTerms(q))
  {
    hide HasAll, ContainsAll, QueryTerms, Found, Weight;
    HasAllIs(doc.tokens, q);
    FoundIsWeight(doc.tokens, q, |q.terms|);
    assert QueryTerms(q)[..|q.terms|] == QueryTerms(q);
  }

  /** What the answers to a query are, without lowering anything. */
  lemma AnswersMean(results: seq<SearchResult>, docs: seq<Doc>, q: Query)
    requires Answers(results, docs, QueryTerms(q), q.maxResults)
    ensures Answered(results, docs, q)
  {
    hide ContainsAll, ResultOf, QueryTerms, IsHit;
    var ts, max := QueryTerms(q), q.maxResults;
    assert Descending(results) && (max > 0 ==> |results| <= max) by { CutDescends(results, docs, ts, max); }
    hide Answers, Descending;
    forall i | 0 <= i < |results|
      ensures exists k :: 0 <= k < |docs| && IsHit(results[i], docs[k], q)
    {
      var k := AnswersOnly(results, docs, ts, max, i);
      HitIs(results[i], docs[k], q);
    }
    forall k, r | 0 <= k < |docs| && IsHit(r, docs[k], q) && r !in results
      ensures 0 < max == |results| && forall i :: 0 <= i < |results| ==> results[i].score >= r.score
    {
      HitIs(r, docs[k], q);
      AnswersCut(results, docs, ts, max, k);
      forall i | 0 <= i < |results|
        ensures results[i].score >= r.score
      {
        KeptAreBest(results, docs, ts, max, k, i);
      }
    }
  }

  lemma CutDescends(results: seq<SearchResult>, docs: seq<Doc>, ts: seq<Term>, max: int)
    requires Answers(results, docs, ts, max)
    ensures Descending(results) && (max > 0 ==> |results| <= max)
  {
  }

  /** Case-insensitive queries whose terms agree up to case have the same answers. */
  lemma CaseIsIgnored(q: Query, q': Query, docs: seq<Doc>, results: seq<SearchResult>)
    requires !q.caseSensitive && !q'.caseSensitive && |q.terms| == |q'.terms| && q.maxResults == q'.maxResults
    requires forall i :: 0 <= i < |q.terms| ==> SameUpToCase(q.terms[i], q'.terms[i])
    ensures Answers(results, docs, QueryTerms(q), q.maxResults) <==>
            Answers(results, docs, QueryTerms(q'), q'.maxResults)
  {
    hide ToLower, SameUpToCase, Answers;
    forall i | 0 <= i < |q.terms|
      ensures QueryTerms(q)[i] == QueryTerms(q')[i]
    {
      LowerSame(q.terms[i], q'.terms[i]);
    }
    assert QueryTerms(q) == QueryTerms(q');
  }

  // ---------------------------------------------------------------------------------------------
  // What the posting lists say about a document
  // ---------------------------------------------------------------------------------------------

  lemma {:induction false} OccurrencesCount(tokens: seq<Term>, t: Term)
    ensures |Occurrences(tokens, t)| == multiset(tokens)[t]
  {
    if tokens != [] {
      hide Occurrences;
      var n := |tokens| - 1;
      var init, last := tokens[..n], tokens[n];
      assert tokens == init + [last];
      OccurrencesCount(init, t);
      OccurrencesStep(init, last, t);
      assert multiset(tokens) == multiset(init) + multiset{last};
    }
  }

  /** The number of a document is its own: no two documents share one. */
  lemma IdsDiffer(j: nat, k: nat)
    requires j < k < P32
    ensures IdOf(j) != IdOf(k)
  {
  }

  ghost predicate NumberOf(docs: seq<Doc>, id: U32, k: int) {
    if k < 0 then forall j :: 0 <= j < |docs| ==> IdOf(j) != id else k < |docs| && IdOf(k) == id
  }

  function Expected(docs: seq<Doc>, ts: seq<Term>, k: int): Option<U32>
    requires k < |docs|
  {
    if k >= 0 && ContainsAll(docs[k].tokens, ts) then Some(Weight(docs[k].tokens, ts) % P32) else None
  }

  function OfTerm(docs: seq<Doc>, t: Term, k: int): Option<U32>
    requires k < |docs|
  {
    if k >= 0 && t in docs[k].tokens then Some(multiset(docs[k].tokens)[t] % P32) else None
  }

  lemma FrequencyStep(docs: seq<Doc>, t: Term, id: U32)
    requires docs != []
    ensures var n := |docs| - 1;
            Frequency(PostingsOf(docs, t), id) ==
            if t in docs[n].tokens && IdOf(n) == id then Some(multiset(docs[n].tokens)[t] % P32)
            else Frequency(PostingsOf(docs[..n], t), id)
  {
    hide IdOf, Occurrences;
    var n := |docs| - 1;
    var rest := PostingsOf(docs[..n], t);
    OccurrencesCount(docs[n].tokens, t);
    assert (rest + [PostingFor(IdOf(n), docs[n].tokens, t)])[..|rest|] == rest;
    assert rest + [] == rest;
  }

  /** Looking a document up in the list of one term. */
  lemma {:induction false} FrequencyOf(docs: seq<Doc>, t: Term, id: U32, k: int)
    requires |docs| <= P32 && NumberOf(docs, id, k)
    ensures Frequency(PostingsOf(docs, t), id) == OfTerm(docs, t, k)
    decreases |docs|
  {
    if docs != [] {
      hide PostingsOf, Frequency;
      var n := |docs| - 1;
      FrequencyStep(docs, t, id);
      var k' := if k == n then -1 else k;
      forall j | 0 <= j < n
        ensures IdOf(j) != IdOf(n)
      {
        IdsDiffer(j, n);
      }
      FrequencyOf(docs[..n], t, id, k');
    }
  }

  function ListsOf(docs: seq<Doc>, ts: seq<Term>): (ls: seq<seq<Posting>>)
    ensures |ls| == |ts| && forall i :: 0 <= i < |ls| ==> ls[i] == PostingsOf(docs, ts[i])
  {
    seq(|ts|, i requires 0 <= i < |ts| => PostingsOf(docs, ts[i]))
  }

  lemma ExpectedStep(docs: seq<Doc>, ts: seq<Term>, k: int)
    requires ts != [] && k < |docs|
    ensures var n := |ts| - 1;
            Expected(docs, ts, k) ==
            if n == 0 then OfTerm(docs, ts[0], k) else Both(Expected(docs, ts[..n], k), OfTerm(docs, ts[n], k))
  {
    var n := |ts| - 1;
    if k >= 0 {
      var tokens := docs[k].tokens;
      assert ContainsAll(tokens, ts) <==> ContainsAll(tokens, ts[..n]) && ts[n] in tokens;
      SumModulo(Weight(tokens, ts[..n]), multiset(tokens)[ts[n]] % P32, P32);
      SumModulo(multiset(tokens)[ts[n]], Weight(tokens, ts[..n]), P32);
    }
  }

  lemma CombinedStep(lists: seq<seq<Posting>>, id: U32)
    requires |lists| > 1
    ensures var n := |lists| - 1;
            Combined(lists, id) == Both(Combined(lists[..n], id), Frequency(lists[n], id))
  {
  }

  /** Intersecting the lists of all terms finds the documents that contain them all. */
  lemma {:induction false} CombinedOf(docs: seq<Doc>, ts: seq<Term>, id: U32, k: int)
    requires ts != [] && |docs| <= P32 && k < |docs| && NumberOf(docs, id, k)
    ensures Combined(ListsOf(docs, ts), id) == Expected(docs, ts, k)
    decreases |ts|
  {
    hide Expected, Combined, PostingsOf, NumberOf, Frequency, OfTerm;
    var n := |ts| - 1;
    var lists := ListsOf(docs, ts);
    FrequencyOf(docs, ts[n], id, k);
    ExpectedStep(docs, ts, k);
    if n == 0 {
      CombinedOne(lists, id);
    } else {
      CombinedStep(lists, id);
      CombinedOf(docs, ts[..n], id, k);
      assert lists[..n] == ListsOf(docs, ts[..n]);
    }
  }

  lemma CombinedOne(lists: seq<seq<Posting>>, id: U32)
    requires |lists| == 1
    ensures Combined(lists, id) == Frequency(lists[0], id)
  {
  }

  // ---------------------------------------------------------------------------------------------
  // From an intersection in any order to the matching documents
  // ---------------------------------------------------------------------------------------------

  /** The document an id numbers, if there is one. */
  function KOf(docs: seq<Doc>, id: U32): (k: int)
    ensures k < |docs|
  {
    var k := if id == 0 then P32 - 1 else id - 1;
    if k < |docs| then k else -1
  }

  lemma KOfIs(docs: seq<Doc>, id: U32)
    requires |docs| <= P32
    ensures NumberOf(docs, id, KOf(docs, id))
  {
  }

  lemma KOfId(docs: seq<Doc>, k: nat)
    requires k < |docs| <= P32
    ensures KOf(docs, IdOf(k)) == k
  {
  }

  function ResultAt(docs: seq<Doc>, ts: seq<Term>, id: U32): SearchResult {
    var k := KOf(docs, id);
    if k >= 0 then ResultOf(docs[k], ts) else SearchResult("", 0)
  }

  function ResultsAt(docs: seq<Doc>, ts: seq<Term>, ids: seq<U32>): (rs: seq<SearchResult>)
    ensures |rs| == |ids| && forall i :: 0 <= i < |ids| ==> rs[i] == ResultAt(docs, ts, ids[i])
  {
    seq(|ids|, i requires 0 <= i < |ids| => ResultAt(docs, ts, ids[i]))
  }

  /** The same ids in another order give the same results in another order. */
  lemma {:induction false} OrderIrrelevant(docs: seq<Doc>, ts: seq<Term>, ids: seq<U32>, ids': seq<U32>)
    requires multiset(ids) == multiset(ids')
    ensures multiset(ResultsAt(docs, ts, ids)) == multiset(ResultsAt(docs, ts, ids'))
    decreases |ids|
  {
    hide ResultsAt;
    if ids == [] {
      assert |multiset(ids')| == 0;
    } else {
      assert ids[0] in multiset(ids');
      var j :| 0 <= j < |ids'| && ids'[j] == ids[0];
      TakeOut(ids, 0);
      TakeOut(ids', j);
      OrderIrrelevant(docs, ts, Without(ids, 0), Without(ids', j));
      ResultsWithout(docs, ts, ids, 0);
      ResultsWithout(docs, ts, ids', j);
      TakeOut(ResultsAt(docs, ts, ids), 0);
      TakeOut(ResultsAt(docs, ts, ids'), j);
    }
  }

  function Without<T>(s: seq<T>, j: nat): (r: seq<T>)
    requires j < |s|
    ensures |r| == |s| - 1
  {
    s[..j] + s[j + 1..]
  }

  lemma TakeOut<T>(s: seq<T>, j: nat)
    requires j < |s|
    ensures multiset(s) == multiset(Without(s, j)) + multiset{s[j]}
    ensures multiset(Without(s, j)) == multiset(s) - multiset{s[j]}
  {
    assert s == s[..j] + [s[j]] + s[j + 1..];
  }

  lemma ResultsWithout(docs: seq<Doc>, ts: seq<Term>, ids: seq<U32>, j: nat)
    requires j < |ids|
    ensures ResultsAt(docs, ts, Without(ids, j)) == Without(ResultsAt(docs, ts, ids), j)
  {
    hide ResultAt;
  }

  lemma {:induction false} DistinctOnce(s: seq<U32>, x: U32)
    requires Distinct(s)
    ensures multiset(s)[x] == if x in s then 1 else 0
    decreases |s|
  {
    if s != [] {
      var n := |s| - 1;
      DistinctOnce(s[..n], x);
      assert s == s[..n] + [s[n]];
      assert s[n] !in s[..n];
    }
  }

  lemma SameElements(s: seq<U32>, s': seq<U32>)
    requires Distinct(s) && Distinct(s') && forall x :: x in s <==> x in s'
    ensures multiset(s) == multiset(s')
  {
    forall x: U32
      ensures multiset(s)[x] == multiset(s')[x]
    {
      DistinctOnce(s, x);
      DistinctOnce(s', x);
    }
  }

  function MatchIds(docs: seq<Doc>, ts: seq<Term>): (ids: seq<U32>)
    ensures |ids| == |Matching(docs, ts)| && forall i :: 0 <= i < |ids| ==> ids[i] == IdOf(Matching(docs, ts)[i])
  {
    seq(|Matching(docs, ts)|, i requires 0 <= i < |Matching(docs, ts)| => IdOf(Matching(docs, ts)[i]))
  }

  lemma MatchIdsAre(docs: seq<Doc>, ts: seq<Term>)
    requires |docs| <= P32
    ensures Distinct(MatchIds(docs, ts))
    ensures ResultsAt(docs, ts, MatchIds(docs, ts)) == Matches(docs, ts)
  {
    hide ContainsAll, ResultOf, IdOf, KOf;
    var ks, ids := Matching(docs, ts), MatchIds(docs, ts);
    MatchingIs(docs, ts);
    forall i, j | 0 <= i < j < |ids|
      ensures ids[i] != ids[j]
    {
      assert ks[i] in ks && ks[j] in ks;
      KOfId(docs, ks[i]);
      KOfId(docs, ks[j]);
    }
    forall i | 0 <= i < |ids|
      ensures ResultAt(docs, ts, ids[i]) == Matches(docs, ts)[i]
    {
      assert ks[i] in ks;
      KOfId(docs, ks[i]);
    }
  }

  lemma MatchIdIff(docs: seq<Doc>, ts: seq<Term>, id: U32)
    requires ts != [] && |docs| <= P32
    ensures id in MatchIds(docs, ts) <==> Combined(ListsOf(docs, ts), id).Some?
    ensures Combined(ListsOf(docs, ts), id).Some? ==>
              KOf(docs, id) >= 0 && Combined(ListsOf(docs, ts), id) == Some(ResultAt(docs, ts, id).score)
  {
    hide ContainsAll, Combined, IdOf, KOf, Weight;
    var k := KOf(docs, id);
    KOfIs(docs, id);
    CombinedOf(docs, ts, id, k);
    MatchingIs(docs, ts);
    var ks, ids := Matching(docs, ts), MatchIds(docs, ts);
    if id in ids {
      var i :| 0 <= i < |ids| && ids[i] == id;
      assert ks[i] in ks;
      KOfId(docs, ks[i]);
    }
    if k >= 0 && ContainsAll(docs[k].tokens, ts) {
      assert k in ks;
      var i :| 0 <= i < |ks| && ks[i] == k;
      assert ids[i] == id;
    }
  }

  /** The intersection, in whatever order, lists the matching documents with their scores. */
  lemma HitsAreMatches(docs: seq<Doc>, infos: map<U32, DocInfo>, ts: seq<Term>, hits: seq<Posting>,
                       rs: seq<SearchResult>)
    requires ts != [] && |docs| <= P32 && Registered(infos, docs)
    requires Distinct(IDs(hits))
    requires forall id :: id in IDs(hits) <==> Combined(ListsOf(docs, ts), id).Some?
    requires forall i :: 0 <= i < |hits| ==> Combined(ListsOf(docs, ts), hits[i].docID) == Some(hits[i].frequency)
    requires |rs| == |hits|
    requires forall i :: 0 <= i < |hits| ==>
               hits[i].docID in infos && rs[i] == SearchResult(infos[hits[i].docID].path, hits[i].frequency)
    ensures multiset(rs) == multiset(Matches(docs, ts))
  {
    hide ContainsAll, Combined, IdOf, KOf, Weight, ListsOf;
    forall id: U32
      ensures id in IDs(hits) <==> id in MatchIds(docs, ts)
    {
      MatchIdIff(docs, ts, id);
    }
    MatchIdsAre(docs, ts);
    SameElements(IDs(hits), MatchIds(docs, ts));
    OrderIrrelevant(docs, ts, IDs(hits), MatchIds(docs, ts));
    forall i | 0 <= i < |hits|
      ensures rs[i] == ResultAt(docs, ts, IDs(hits)[i])
    {
      MatchIdIff(docs, ts, hits[i].docID);
      KOfIs(docs, hits[i].docID);
    }
    assert rs == ResultsAt(docs, ts, IDs(hits));
  }

  lemma HitsRegistered(docs: seq<Doc>, infos: map<U32, DocInfo>, ts: seq<Term>, id: U32)
    requires ts != [] && |docs| <= P32 && Registered(infos, docs) && Combined(ListsOf(docs, ts), id).Some?
    ensures id in infos
  {
    hide ContainsAll, Combined, Weight, ListsOf;
    MatchIdIff(docs, ts, id);
    KOfIs(docs, id);
  }

  /** A term no document has leaves nothing to match. */
  lemma {:induction false} UnlistedTerm(docs: seq<Doc>, ts: seq<Term>, i: nat)
    requires i < |ts| && PostingsOf(docs, ts[i]) == []
    ensures Matching(docs, ts) == []
    decreases |docs|
  {
    if docs != [] {
      UnlistedTerm(docs[..|docs| - 1], ts, i);
    }
  }
}
