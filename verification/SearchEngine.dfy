/**
 Answering a query from the stored lists: split_query_to_tokens and search_docs_and
 (search.c:260-379 and 514-524).
 */
module SearchEngine {
  import opened Wrappers
  import opened GapCode
  import opened PostingsCodec
  import opened Tokenizer
  import opened TokenKey
  import opened SimpleIndex
  import opened TokenTable
  import opened InvertedIndex
  import opened DocumentSearch
  import opened Query
  import opened ExactAnswers
  import opened Engine
  import Golomb
  import MergeSort
  import Utf

  /** query_token_value_docs_count_desc_sort: `b->docs_count - a->docs_count <= 0`. */
  function ByDocsCount(): MergeSort.Leq<QueryToken>
  {
    (a: QueryToken, b: QueryToken) => b.docsCount - a.docsCount <= 0
  }

  /** search_results_score_desc_sort. */
  function ByScore(): MergeSort.Leq<Result>
  {
    (a: Result, b: Result) => !(b.score > a.score)
  }

  /** The query token that an entry of the query index stands for. */
  function TokenOf(h: Hash, id: int): (x: QueryToken)
    requires id in h && h[id].postings != []
  {
    QueryToken(id, h[id].docsCount, h[id].positionsCount, h[id].postings[0].positions)
  }

  ghost predicate TokensOf(tokens: seq<QueryToken>, h: Hash)
  {
    && (forall id :: id in h ==> h[id].postings != [])
    && (forall x :: x in tokens ==> x.tokenId in h && x == TokenOf(h, x.tokenId))
    && (forall id :: id in h ==> TokenOf(h, id) in tokens)
    && (forall i, j :: 0 <= i < j < |tokens| ==> tokens[i].tokenId != tokens[j].tokenId)
  }

  /** The entries of the query index in application order; any order will do. */
  method ListTokens(h: Hash) returns (tokens: seq<QueryToken>)
    requires forall id :: id in h ==> h[id].postings != []
    ensures TokensOf(tokens, h)
  {
    tokens := [];
    var left := h.Keys;
    while left != {}
      invariant left <= h.Keys
      invariant forall x :: x in tokens ==> x.tokenId in h && x == TokenOf(h, x.tokenId)
      invariant forall id :: id in h && id !in left ==> TokenOf(h, id) in tokens
      invariant forall x :: x in tokens ==> x.tokenId !in left
      invariant forall i, j :: 0 <= i < j < |tokens| ==> tokens[i].tokenId != tokens[j].tokenId
      decreases left
    {
      ghost var some := HasElement(left);
      var id :| id in left;
      tokens := tokens + [TokenOf(h, id)];
      left := left - {id};
    }
  }

  lemma SortedTokens(tokens: seq<QueryToken>, h: Hash)
    requires TokensOf(tokens, h)
    ensures var sorted := MergeSort.Sort(ByDocsCount(), tokens);
            TokensOf(sorted, h) && forall i, j :: 0 <= i < j < |sorted| ==> sorted[i].docsCount >= sorted[j].docsCount
  {
    hide MergeSort.Sort;
    assert MergeSort.TotalOn(ByDocsCount(), tokens);
    MergeSort.SortIsStableSort(ByDocsCount(), tokens);
    ByDocsCountMeans(MergeSort.Sort(ByDocsCount(), tokens));
    MergeSort.SameElements(MergeSort.Sort(ByDocsCount(), tokens), tokens);
    MergeSort.PermutedDistinct((x: QueryToken) => x.tokenId, tokens, MergeSort.Sort(ByDocsCount(), tokens));
  }

  lemma ByDocsCountMeans(tokens: seq<QueryToken>)
    requires MergeSort.Sorted(ByDocsCount(), tokens)
    ensures forall i, j :: 0 <= i < j < |tokens| ==> tokens[i].docsCount >= tokens[j].docsCount
  {
    forall i, j | 0 <= i < j < |tokens|
      ensures tokens[i].docsCount >= tokens[j].docsCount
    {
      assert ByDocsCount()(tokens[i], tokens[j]);
    }
  }

  // ---------------------------------------------------------------------------
  // Query tokens and terms
  // ---------------------------------------------------------------------------

  lemma {:induction false} IdPositionsMean(ids: map<Key, int>, stream: seq<Text>, all: bool, n: nat, id: int, k: nat)
    requires k <= |stream|
    ensures forall b :: b in IdPositions(ids, stream, all, n, id, k) <==>
              0 <= b < k && Kept(stream, all, n, b) && IdOf(ids, KeyOf(stream[b])) == id
    decreases k
  {
    hide Kept, IdOf, KeyOf;
    if k > 0 {
      IdPositionsMean(ids, stream, all, n, id, k - 1);
    }
  }

  /** What a token of the query index says about the query. */
  lemma TokenMeans(tb: Table, h: Hash, q: Text, n: nat, id: int)
    requires n > 0 && TableOk(tb) && HashOfText(tb, h, Stream(q, n), 0, n, |Stream(q, n)|) && id in h
    ensures h[id].postings != [] && TokenOf(h, id).bases != []
    ensures TokenOf(h, id).positionsCount == |TokenOf(h, id).bases|
    ensures forall b :: b in TokenOf(h, id).bases <==> IsKept(q, n, b) && IdOf(tb.ids, KeyOf(Stream(q, n)[b])) == id
  {
    hide Stream, IdOf, TableOk, IdPositions, KeyOf;
    var stream := Stream(q, n);
    assert EntryOfText(tb, h, stream, 0, n, |stream|, id);
    IdPositionsMean(tb.ids, stream, false, n, id, |stream|);
  }

  lemma KeptHasEntry(tb: Table, h: Hash, q: Text, n: nat, b: int)
    requires n > 0 && HashOfText(tb, h, Stream(q, n), 0, n, |Stream(q, n)|)
    requires IsKept(q, n, b)
    ensures IdOf(tb.ids, KeyOf(Stream(q, n)[b])) in h
  {
    hide Stream, IdOf, IdPositions, KeyOf;
    var stream := Stream(q, n);
    var id := IdOf(tb.ids, KeyOf(stream[b]));
    assert EntryOfText(tb, h, stream, 0, n, |stream|, id);
    IdPositionsMean(tb.ids, stream, false, n, id, |stream|);
    assert b in IdPositions(tb.ids, stream, false, n, id, |stream|);
  }

  /** The count of documents of a query token is the one stored for the token. */
  lemma TokenCounts(tb: Table, h: Hash, q: Text, n: nat, id: int)
    requires n > 0 && HashOfText(tb, h, Stream(q, n), 0, n, |Stream(q, n)|) && id in h && h[id].postings != []
    ensures TokenOf(h, id).docsCount == if id in tb.rows then tb.rows[id].docsCount else 0
  {
    hide Stream, IdPositions;
    assert EntryOfText(tb, h, Stream(q, n), 0, n, |Stream(q, n)|, id);
  }

  /** Different tokens of the query index stand at different places of the query. */
  lemma TokensApart(tb: Table, h: Hash, q: Text, n: nat, x: QueryToken, y: QueryToken)
    requires n > 0 && TableOk(tb) && HashOfText(tb, h, Stream(q, n), 0, n, |Stream(q, n)|)
    requires x.tokenId in h && y.tokenId in h && x.tokenId != y.tokenId
    requires h[x.tokenId].postings != [] && h[y.tokenId].postings != []
    requires x == TokenOf(h, x.tokenId) && y == TokenOf(h, y.tokenId)
    ensures Apart(x, y)
  {
    hide Stream, IsKept, HashOfText, TableOk, IdOf, KeyOf;
    TokenMeans(tb, h, q, n, x.tokenId);
    TokenMeans(tb, h, q, n, y.tokenId);
  }

  /** A fetched token is a term of the query. */
  lemma FetchedTerm(how: CompressMethod, tb: Table, h: Hash, q: Text, n: nat, docs: seq<Document>, x: Term)
      returns (t: Key)
    requires n > 0 && TableOk(tb) && HashOfText(tb, h, Stream(q, n), 0, n, |Stream(q, n)|)
    requires forall t :: Stored(how, tb, t) == IndexOf(docs, n, t)
    requires x.token.tokenId in h && x.token.tokenId != 0 && h[x.token.tokenId].postings != []
    requires x.token == TokenOf(h, x.token.tokenId)
    requires x.list == if x.token.tokenId in tb.rows then RowList(how, tb.rows[x.token.tokenId]) else []
    requires RowsOk(how, tb)
    ensures TermOf(x, t, q, n, docs) && t in tb.ids && tb.ids[t] == x.token.tokenId
  {
    var id := x.token.tokenId;
    TokenCounts(tb, h, q, n, id);
    hide Stream, Kept, IndexOf, HashOfText, RowList, KeyOf;
    TokenMeans(tb, h, q, n, id);
    assert id in tb.rows ==> RowOk(how, tb.rows[id]);
    var b := x.token.bases[0];
    assert b in x.token.bases;
    t := KeyOf(Stream(q, n)[b]);
    assert Stored(how, tb, t) == x.list;
    forall b'
      ensures b' in x.token.bases <==> IsKept(q, n, b') && KeyOf(Stream(q, n)[b']) == t
    {
    }
  }

  lemma FetchedTerms(how: CompressMethod, tb: Table, h: Hash, q: Text, n: nat, docs: seq<Document>, terms: seq<Term>)
    requires n > 0 && TableOk(tb) && HashOfText(tb, h, Stream(q, n), 0, n, |Stream(q, n)|)
    requires forall t :: Stored(how, tb, t) == IndexOf(docs, n, t)
    requires forall id :: id in h ==> h[id].postings != []
    requires forall x :: x in terms ==> IsFetched(how, tb, h, x)
    requires forall id :: id in h ==> exists x :: x in terms && x.token.tokenId == id
    requires RowsOk(how, tb) && forall i, j :: 0 <= i < j < |terms| ==> terms[i].token.tokenId != terms[j].token.tokenId
    ensures TermsOf(terms, q, n, docs)
  {
    hide Stream, Kept, HashOfText, TermOf, Stored, IndexOf, TableOk, RowList, RowsOk, Apart, KeyOf;
    forall i, j | 0 <= i < j < |terms|
      ensures Apart(terms[i].token, terms[j].token)
    {
      assert terms[i] in terms && terms[j] in terms;
      TokensApart(tb, h, q, n, terms[i].token, terms[j].token);
    }
    forall x | x in terms
      ensures exists t :: TermOf(x, t, q, n, docs)
    {
      var t := FetchedTerm(how, tb, h, q, n, docs, x);
    }
    forall b | IsKept(q, n, b)
      ensures exists x :: x in terms && TermOf(x, KeyOf(Stream(q, n)[b]), q, n, docs)
    {
      KeptHasEntry(tb, h, q, n, b);
      var key := KeyOf(Stream(q, n)[b]);
      var x :| x in terms && x.token.tokenId == IdOf(tb.ids, key);
      var t := FetchedTerm(how, tb, h, q, n, docs, x);
      assert t == key by { KeyHasId(tb, key, t); }
    }
  }

  /** Token known, list fetched and not empty. */
  ghost predicate IsFetched(how: CompressMethod, tb: Table, h: Hash, x: Term)
    requires forall id :: id in h ==> h[id].postings != []
  {
    && x.token.tokenId in h && x.token.tokenId != 0 && x.token == TokenOf(h, x.token.tokenId)
    && x.list == (if x.token.tokenId in tb.rows then RowList(how, tb.rows[x.token.tokenId]) else [])
    && x.list != []
  }

  /** Fetched terms are what the leapfrog expects. */
  lemma TermsAreGood(terms: seq<Term>, q: Text, n: nat, docs: seq<Document>)
    requires n > 0 && GoodDocs(docs, 0) && TermsOf(terms, q, n, docs) && terms != []
    ensures GoodTerms(terms)
  {
    hide IndexOf, BasesOf, GoodDocs, Ascending;
    forall x | x in terms
      ensures GoodTerm(x)
    {
      var t :| TermOf(x, t, q, n, docs);
      IndexIsGood(docs, 0, n, t);
    }
  }

  // ---------------------------------------------------------------------------
  // A token that no document holds
  // ---------------------------------------------------------------------------

  /** The token of an entry of the query index is unknown, or its list is empty. */
  predicate Missing(how: CompressMethod, tb: Table, h: Hash, id: int)
  {
    id in h && (id == 0 || (if id in tb.rows then RowList(how, tb.rows[id]) else []) == [])
  }

  /** When a token of the query is unknown or its list is empty, no document answers the query. */
  lemma NothingAnswers(how: CompressMethod, tb: Table, h: Hash, q: Text, n: nat, docs: seq<Document>, id: int,
                       phrase: bool)
    requires n > 0 && TableOk(tb) && HashOfText(tb, h, Stream(q, n), 0, n, |Stream(q, n)|)
    requires GoodDocs(docs, 0) && forall t :: Stored(how, tb, t) == IndexOf(docs, n, t)
    requires Missing(how, tb, h, id)
    ensures forall i :: 0 <= i < |docs| ==> !Answers(docs[i].body, q, n, phrase, ByKey)
  {
    hide Stream, Kept, HashOfText, RowList, IndexOf, GoodDocs, KeyOf;
    TokenMeans(tb, h, q, n, id);
    var b := TokenOf(h, id).bases[0];
    assert b in TokenOf(h, id).bases;
    var t := KeyOf(Stream(q, n)[b]);
    assert Stored(how, tb, t) == [];
    assert IndexOf(docs, n, t) == [];
    forall i | 0 <= i < |docs|
      ensures !Answers(docs[i].body, q, n, phrase, ByKey)
    {
      NoBodyAnswers(q, n, docs, b, i, phrase);
    }
  }

  lemma NoBodyAnswers(q: Text, n: nat, docs: seq<Document>, b: nat, i: nat, phrase: bool)
    requires n > 0 && GoodDocs(docs, 0) && i < |docs|
    requires IsKept(q, n, b) && IndexOf(docs, n, KeyOf(Stream(q, n)[b])) == []
    ensures !Answers(docs[i].body, q, n, phrase, ByKey)
  {
    hide Stream, Kept, IndexOf, GoodDocs, PositionsIn, KeyOf;
    var t, body := KeyOf(Stream(q, n)[b]), docs[i].body;
    IndexLookup(docs, n, t, i + 1);
    PositionsMean(body, n, t);
    assert Ids([]) == [];
    forall k
      ensures !StandsAt(body, q, n, ByKey, k, b)
    {
    }
    assert !HoldsAll(body, q, n, ByKey);
    forall r
      ensures !OccursAt(body, q, n, ByKey, r)
    {
      OccursMeansHolds(body, q, n, ByKey, r);
    }
  }

  // ---------------------------------------------------------------------------
  // search_docs_and
  // ---------------------------------------------------------------------------

  /** The fetch loop: stops at the first unknown token and at the first empty list. */
  method FetchTerms(env: Env, tokens: seq<QueryToken>, ghost h: Hash) returns (ok: bool, terms: seq<Term>)
    requires env.Valid() && TokensOf(tokens, h)
    ensures ok ==> |terms| == |tokens| && forall x :: x in terms ==> IsFetched(env.compress, env.table, h, x)
    ensures ok ==> forall i :: 0 <= i < |tokens| ==> terms[i].token == tokens[i]
    ensures !ok ==> exists id :: Missing(env.compress, env.table, h, id)
  {
    hide ListsOk, BufferOk, GoodDocs, TableOk, RowList, RowsOk;
    terms := [];
    for i := 0 to |tokens|
      invariant |terms| == i && forall x :: x in terms ==> IsFetched(env.compress, env.table, h, x)
      invariant forall j :: 0 <= j < i ==> terms[j].token == tokens[j]
    {
      var id := tokens[i].tokenId;
      assert tokens[i] in tokens;
      if id == 0 {
        assert Missing(env.compress, env.table, h, id);
        return false, terms;
      }
      var rc, list, len := env.FetchPostings(id);
      if rc != 0 || list == [] {
        assert Missing(env.compress, env.table, h, id);
        return false, terms;
      }
      terms := terms + [Term(tokens[i], list)];
    }
    ok := true;
  }

  ghost predicate Listed(results: seq<Result>, d: int)
  {
    exists x :: x in results && x.documentId == d
  }

  /** The result table holds exactly the documents among the first `|docs|` that answer the query, each once. */
  ghost predicate CorrectResults(results: seq<Result>, q: Text, n: nat, docs: seq<Document>, phrase: bool,
                                 how: Comparison)
    requires n > 0
  {
    && (forall i, j :: 0 <= i < j < |results| ==> results[i].documentId != results[j].documentId)
    && (forall d :: Listed(results, d) <==>
          HasToken(q, n) && 1 <= d <= |docs| && Answers(docs[d - 1].body, q, n, phrase, how))
  }

  /** The results are the hits of the query's terms with the sums of tf and idf as scores, stably sorted by score. */
  ghost predicate Ranked(results: seq<Result>, terms: seq<Term>, q: Text, n: nat, docs: seq<Document>, phrase: bool,
                         indexed: int, idf: Idf)
    requires n > 0
  {
    results != [] ==>
      && GoodTerms(terms) && TermsOf(terms, q, n, docs)
      && results == MergeSort.Sort(ByScore(), HitsFrom(terms, phrase, indexed, idf, 0))
  }

  /**
   Every listed document has the score that the texts give it: the sum, over the different keys that the query looks
   for, of the number of occurrences in the document times the weight of the key.
   */
  ghost predicate Scored(results: seq<Result>, q: Text, n: nat, docs: seq<Document>, indexed: int, idf: Idf)
    requires n > 0
  {
    forall x :: x in results ==>
      && 1 <= x.documentId <= |docs|
      && x.score == KeyScores(docs, n, QueryKeys(q, n), x.documentId, indexed, idf)
  }

  /** Scores descend, and documents with the same score are in ascending order. */
  predicate BestFirst(results: seq<Result>)
  {
    forall i, j :: 0 <= i < j < |results| ==>
      || results[i].score > results[j].score
      || (results[i].score == results[j].score && results[i].documentId < results[j].documentId)
  }

  /** search_docs_and on a fresh result table, up to the final sort. */
  method SearchDocsAnd(env: Env, h: Hash, phrase: bool, idf: Idf, ghost q: Text)
      returns (results: seq<Result>, ghost terms: seq<Term>)
    requires env.Valid()
    requires HashOfText(env.table, h, Stream(q, env.tokenLen), 0, env.tokenLen, |Stream(q, env.tokenLen)|)
    ensures CorrectResults(results, q, env.tokenLen, env.docs[..env.flushed], phrase, ByKey)
    ensures results != [] ==>
              && GoodTerms(terms) && TermsOf(terms, q, env.tokenLen, env.docs[..env.flushed])
              && results == HitsFrom(terms, phrase, env.documentsCount, idf, 0)
    ensures results != [] ==>
              forall i, j :: 0 <= i < j < |terms| ==> terms[i].token.docsCount >= terms[j].token.docsCount
    ensures AscendingResults(results)
    ensures Scored(results, q, env.tokenLen, env.docs[..env.flushed], env.documentsCount, idf)
  {
    hide ListsOk, BufferOk, RowList, RowsOk, HashOfText, TableOk, GoodDocs, CorrectResults, IsFetched, TermsOf;
    hide GoodTerms, Scored;
    ghost var n, docs := env.tokenLen, env.docs[..env.flushed];
    StoredSoFar(env.compress, n, env.table, env.iiBuffer, env.docs, env.flushed);
    terms := [];
    results := [];
    NothingScored(q, n, docs, env.documentsCount, idf);
    EntriesHavePostings(env.table, h, q, n);
    if h == map[] {
      NoTokenNoAnswer(env.table, h, q, n, docs, phrase);
      return;
    }
    var tokens := ListTokens(h);
    SortedTokens(tokens, h);
    tokens := MergeSort.Sort(ByDocsCount(), tokens);
    var ok, fetched := FetchTerms(env, tokens, h);
    if !ok {
      ghost var id :| Missing(env.compress, env.table, h, id);
      NothingAnswers(env.compress, env.table, h, q, n, docs, id, phrase);
      EmptyIsCorrect(q, n, docs, phrase);
      return;
    }
    terms := fetched;
    AllFetched(tokens, h, fetched);
    FetchedTerms(env.compress, env.table, h, q, n, docs, fetched);
    TermsAreGood(fetched, q, n, docs);
    results := LeapfrogDocuments(fetched, phrase, env.documentsCount, idf, []);
    ResultsAreAnswers(fetched, q, n, docs, phrase, env.documentsCount, idf);
    HitsScored(fetched, q, n, docs, phrase, env.documentsCount, idf);
  }

  lemma NothingScored(q: Text, n: nat, docs: seq<Document>, indexed: int, idf: Idf)
    requires n > 0
    ensures Scored([], q, n, docs, indexed, idf)
  {
  }

  lemma HitsScored(terms: seq<Term>, q: Text, n: nat, docs: seq<Document>, phrase: bool, indexed: int, idf: Idf)
    requires n > 0 && GoodDocs(docs, 0) && TermsOf(terms, q, n, docs) && GoodTerms(terms)
    ensures AscendingResults(HitsFrom(terms, phrase, indexed, idf, 0))
    ensures Scored(HitsFrom(terms, phrase, indexed, idf, 0), q, n, docs, indexed, idf)
  {
    hide HitsFrom, TermsOf, GoodTerm, Answers, GoodDocs, Score, KeyScores, QueryKeys, PhraseAt, InAll;
    HitsAre(terms, phrase, indexed, idf);
    forall x | x in HitsFrom(terms, phrase, indexed, idf, 0)
      ensures 1 <= x.documentId <= |docs|
      ensures x.score == KeyScores(docs, n, QueryKeys(q, n), x.documentId, indexed, idf)
    {
      HitsAreAnswers(terms, q, n, docs, phrase, x.documentId);
      ScoreOverTexts(terms, q, n, docs, x.documentId, indexed, idf);
    }
  }

  lemma StoredSoFar(how: CompressMethod, n: nat, tb: Table, buf: Hash, docs: seq<Document>, flushed: nat)
    requires n > 0 && flushed <= |docs| && GoodDocs(docs, 0) && ListsOk(how, n, tb, buf, docs, flushed)
    ensures GoodDocs(docs[..flushed], 0)
    ensures forall t :: Stored(how, tb, t) == IndexOf(docs[..flushed], n, t)
  {
    hide Stored, IndexOf;
  }

  lemma EntriesHavePostings(tb: Table, h: Hash, q: Text, n: nat)
    requires n > 0 && HashOfText(tb, h, Stream(q, n), 0, n, |Stream(q, n)|)
    ensures forall id :: id in h ==> h[id].postings != []
  {
    hide Stream, IdPositions;
    forall id | id in h
      ensures h[id].postings != []
    {
      assert EntryOfText(tb, h, Stream(q, n), 0, n, |Stream(q, n)|, id);
    }
  }

  lemma NoTokenNoAnswer(tb: Table, h: Hash, q: Text, n: nat, docs: seq<Document>, phrase: bool)
    requires n > 0 && HashOfText(tb, h, Stream(q, n), 0, n, |Stream(q, n)|) && h == map[]
    ensures CorrectResults([], q, n, docs, phrase, ByKey)
  {
    hide Stream, IsKept, Answers, HashOfText;
    forall b
      ensures !IsKept(q, n, b)
    {
      if IsKept(q, n, b) {
        KeptHasEntry(tb, h, q, n, b);
      }
    }
  }

  lemma EmptyIsCorrect(q: Text, n: nat, docs: seq<Document>, phrase: bool)
    requires n > 0 && forall i :: 0 <= i < |docs| ==> !Answers(docs[i].body, q, n, phrase, ByKey)
    ensures CorrectResults([], q, n, docs, phrase, ByKey)
  {
    hide Answers, HasToken;
  }

  lemma AllFetched(tokens: seq<QueryToken>, h: Hash, terms: seq<Term>)
    requires TokensOf(tokens, h) && |terms| == |tokens| && forall i :: 0 <= i < |tokens| ==> terms[i].token == tokens[i]
    ensures forall id :: id in h ==> exists x :: x in terms && x.token.tokenId == id
    ensures h != map[] ==> terms != []
  {
    forall id | id in h
      ensures exists x :: x in terms && x.token.tokenId == id
    {
      var i :| 0 <= i < |tokens| && tokens[i] == TokenOf(h, id);
      assert terms[i] in terms;
    }
    if h != map[] {
      var id := HasElement(h.Keys);
      assert TokenOf(h, id) in tokens;
    }
  }

  lemma ResultsAreAnswers(terms: seq<Term>, q: Text, n: nat, docs: seq<Document>, phrase: bool, indexed: int, idf: Idf)
    requires n > 0 && GoodDocs(docs, 0) && TermsOf(terms, q, n, docs) && GoodTerms(terms)
    ensures AddResults([], HitsFrom(terms, phrase, indexed, idf, 0)) == HitsFrom(terms, phrase, indexed, idf, 0)
    ensures CorrectResults(HitsFrom(terms, phrase, indexed, idf, 0), q, n, docs, phrase, ByKey)
  {
    hide HitsFrom, TermsOf, GoodTerm, AddResults, IsHit, Answers, GoodDocs, Score, HasToken;
    var hits := HitsFrom(terms, phrase, indexed, idf, 0);
    HitsAre(terms, phrase, indexed, idf);
    assert [] + hits == hits;
    FreshTable([], hits);
    TermsHaveToken(terms, q, n, docs);
    forall d
      ensures Listed(hits, d) <==> 1 <= d <= |docs| && Answers(docs[d - 1].body, q, n, phrase, ByKey)
    {
      HitsAreAnswers(terms, q, n, docs, phrase, d);
      if IsHit(terms, phrase, d) {
        HitListed(terms, phrase, indexed, idf, d);
      }
    }
  }

  lemma HitListed(terms: seq<Term>, phrase: bool, indexed: int, idf: Idf, d: int)
    requires GoodTerms(terms) && IsHit(terms, phrase, d)
    ensures Listed(HitsFrom(terms, phrase, indexed, idf, 0), d)
  {
    hide HitsFrom, GoodTerm, PhraseAt, Score;
    HitsAre(terms, phrase, indexed, idf);
    assert Result(d, Score(terms, d, indexed, idf)) in HitsFrom(terms, phrase, indexed, idf, 0);
  }

  lemma TermsHaveToken(terms: seq<Term>, q: Text, n: nat, docs: seq<Document>)
    requires n > 0 && TermsOf(terms, q, n, docs) && GoodTerms(terms)
    ensures HasToken(q, n)
  {
    hide IndexOf, IsKept, GoodTerm;
    var x := terms[0];
    assert x in terms;
    var t :| TermOf(x, t, q, n, docs);
    var b := x.token.bases[0];
    assert b in x.token.bases;
    assert IsKept(q, n, b);
  }

  // ---------------------------------------------------------------------------
  // search
  // ---------------------------------------------------------------------------

  /**
   search on a query that is long enough, with AND semantics. It dies, None, exactly when some full-length token of the
   query cannot be encoded. Otherwise the answer is exact as far as keys go, exact altogether when the query asks for
   no zero character, and sorted by descending score.
   */
  method Search(env: Env, query: Text, phrase: bool, idf: Idf) returns (r: Option<seq<Result>>, ghost terms: seq<Term>)
    requires env.Valid() && |query| >= env.tokenLen
    modifies env`table
    ensures env.Valid() && env.table == old(env.table)
    ensures r.Some? <==> Encodes(query, env.tokenLen)
    ensures r.Some? ==> CorrectResults(r.value, query, env.tokenLen, env.docs[..env.flushed], phrase, ByKey)
    ensures r.Some? && ExactQuery(query, env.tokenLen) ==>
              CorrectResults(r.value, query, env.tokenLen, env.docs[..env.flushed], phrase, ByToken)
    ensures r.Some? ==> forall i, j :: 0 <= i < j < |r.value| ==> r.value[i].score >= r.value[j].score
    ensures r.Some? ==> BestFirst(r.value)
    ensures r.Some? ==> Scored(r.value, query, env.tokenLen, env.docs[..env.flushed], env.documentsCount, idf)
    ensures r.Some? ==>
              Ranked(r.value, terms, query, env.tokenLen, env.docs[..env.flushed], phrase, env.documentsCount, idf)
  {
    hide ListsOk, BufferOk, RowsOk, HashOfText, TableOk, GoodDocs, Grown, Stream, Hashable, ExactQuery, CorrectResults;
    hide Scored;
    var h := env.CollectTokens(0, query);
    if h.None? {
      return None, [];
    }
    var results;
    results, terms := SearchDocsAnd(env, h.value, phrase, idf, query);
    SortedResults(results, query, env.tokenLen, env.docs[..env.flushed], phrase, env.documentsCount, idf);
    results := MergeSort.Sort(ByScore(), results);
    if ExactQuery(query, env.tokenLen) {
      StoredSoFar(env.compress, env.tokenLen, env.table, env.iiBuffer, env.docs, env.flushed);
      ExactResults(results, query, env.tokenLen, env.docs[..env.flushed], phrase);
    }
    r := Some(results);
  }

  /** When no full-length token of the query holds a zero character, results that are correct by keys are correct. */
  lemma ExactResults(results: seq<Result>, q: Text, n: nat, docs: seq<Document>, phrase: bool)
    requires n > 0 && GoodDocs(docs, 0) && Encodes(q, n) && ExactQuery(q, n)
    requires CorrectResults(results, q, n, docs, phrase, ByKey)
    ensures CorrectResults(results, q, n, docs, phrase, ByToken)
  {
    hide Answers, HasToken, Listed, Encodes, ExactQuery;
    forall i | 0 <= i < |docs|
      ensures Answers(docs[i].body, q, n, phrase, ByKey) <==> Answers(docs[i].body, q, n, phrase, ByToken)
    {
      ExactAnswer(docs[i].body, q, n, phrase);
    }
  }

  lemma SortedResults(results: seq<Result>, q: Text, n: nat, docs: seq<Document>, phrase: bool, indexed: int, idf: Idf)
    requires n > 0 && CorrectResults(results, q, n, docs, phrase, ByKey)
    requires AscendingResults(results) && Scored(results, q, n, docs, indexed, idf)
    ensures var sorted := MergeSort.Sort(ByScore(), results);
            && CorrectResults(sorted, q, n, docs, phrase, ByKey)
            && BestFirst(sorted) && Scored(sorted, q, n, docs, indexed, idf)
  {
    hide MergeSort.Sort, HasToken, Answers, AscendingResults, BestFirst, KeyScores;
    ByScoreIsTotal(results);
    MergeSort.SortKeepsMembers(ByScore(), results);
    MergeSort.PermutedDistinct((x: Result) => x.documentId, results, MergeSort.Sort(ByScore(), results));
    SortedIsBestFirst(results);
    forall d
      ensures Listed(MergeSort.Sort(ByScore(), results), d) <==> Listed(results, d)
    {
    }
  }

  lemma SortedIsBestFirst(results: seq<Result>)
    requires AscendingResults(results)
    ensures BestFirst(MergeSort.Sort(ByScore(), results))
  {
    hide MergeSort.Sort;
    var byId: MergeSort.Leq<Result> := (a: Result, b: Result) => a.documentId < b.documentId;
    ByScoreIsTotal(results);
    MergeSort.SortIsStableSort(ByScore(), results);
    var sorted := MergeSort.Sort(ByScore(), results);
    assert MergeSort.Sorted(byId, results);
    forall i: nat, j: nat | i < j < |sorted|
      ensures || sorted[i].score > sorted[j].score
              || (sorted[i].score == sorted[j].score && sorted[i].documentId < sorted[j].documentId)
    {
      assert ByScore()(sorted[i], sorted[j]);
      if sorted[i].score == sorted[j].score {
        MergeSort.SortKeepsOrder(ByScore(), results, byId, i, j);
      }
    }
  }

  lemma ByScoreIsTotal(results: seq<Result>)
    ensures MergeSort.TotalOn(ByScore(), results)
  {
  }

  // ---------------------------------------------------------------------------
  // Recall
  // ---------------------------------------------------------------------------

  /**
   Recall: such a piece, if it has a full-length token, is answered with the document it is from. That holds with
   zero characters, too.
   */
  lemma PieceIsAnswered(results: seq<Result>, q: Text, n: nat, docs: seq<Document>, phrase: bool, how: Comparison,
                        i: nat, o: nat)
    requires n > 0 && CorrectResults(results, q, n, docs, phrase, how)
    requires i < |docs| && CutOut(docs[i].body, o, q) && HasToken(q, n)
    ensures Listed(results, i + 1)
  {
    hide OccursAt, HoldsAll, Listed, IsCut, HasToken;
    PieceOccurs(docs[i].body, o, q, n, how);
    OccursMeansHolds(docs[i].body, q, n, how, CountStarts(docs[i].body, o));
    assert docs[(i + 1) - 1] == docs[i];
  }

  // ---------------------------------------------------------------------------
  // Whole runs
  // ---------------------------------------------------------------------------

  function DocumentsOf(inputs: seq<(string, Text)>): (docs: seq<Document>)
    ensures |docs| == |inputs|
  {
    seq(|inputs|, i requires 0 <= i < |inputs| => Document(i + 1, inputs[i].1))
  }

  ghost predicate AllBodiesEncode(inputs: seq<(string, Text)>)
  {
    forall i :: 0 <= i < |inputs| ==> Utf.AllEncodable(inputs[i].1)
  }

  /**
   Indexing a dump: add_document for every article and once more with NULL. It dies, not `ok`, exactly when some body
   cannot be encoded. Otherwise, what ends up stored is the simple index of the articles, for every threshold and
   either form of storage.
   */
  method IndexAll(inputs: seq<(string, Text)>, tokenLen: nat, compress: CompressMethod, threshold: int)
      returns (ok: bool, env: Env)
    requires tokenLen > 0 && |inputs| <= Golomb.MAX_M
    requires forall i :: 0 <= i < |inputs| ==> |inputs[i].1| <= Golomb.MAX_M
    requires forall i, j :: 0 <= i < j < |inputs| ==> inputs[i].0 != inputs[j].0
    ensures fresh(env) && env.tokenLen == tokenLen && env.compress == compress
    ensures ok <==> AllBodiesEncode(inputs)
    ensures ok ==> env.Valid() && env.docs == DocumentsOf(inputs) && env.flushed == |inputs| && env.iiBuffer == map[]
    ensures ok ==> forall t :: Stored(compress, env.table, t) == IndexOf(DocumentsOf(inputs), tokenLen, t)
  {
    hide ListsOk, BufferOk, RowsOk, TableOk, GoodDocs, IndexOf, Stored, Utf.AllEncodable;
    env := new Env(tokenLen, compress, threshold);
    for i := 0 to |inputs|
      invariant fresh(env) && env.Valid() && env.tokenLen == tokenLen && env.compress == compress
      invariant env.docs == DocumentsOf(inputs[..i])
      invariant forall s :: s in env.titles ==> exists j :: 0 <= j < i && inputs[j].0 == s
      invariant forall j :: 0 <= j < i ==> Utf.AllEncodable(inputs[j].1)
    {
      ok := env.AddDocument(Some(inputs[i].0), Some(inputs[i].1));
      if !ok {
        return;
      }
      assert DocumentsOf(inputs[..i + 1]) == DocumentsOf(inputs[..i]) + [Document(i + 1, inputs[i].1)];
    }
    assert inputs[..|inputs|] == inputs;
    ok := env.AddDocument(None, None);
    StoredSoFar(compress, tokenLen, env.table, env.iiBuffer, env.docs, env.flushed);
    assert env.docs[..env.flushed] == env.docs;
  }

  /** End to end: index a dump, flush, search. */
  method IndexAndSearch(inputs: seq<(string, Text)>, tokenLen: nat, compress: CompressMethod, threshold: int,
                        query: Text, phrase: bool, idf: Idf) returns (r: Option<seq<Result>>, ghost terms: seq<Term>)
    requires tokenLen > 0 && |inputs| <= Golomb.MAX_M && |query| >= tokenLen
    requires forall i :: 0 <= i < |inputs| ==> |inputs[i].1| <= Golomb.MAX_M
    requires forall i, j :: 0 <= i < j < |inputs| ==> inputs[i].0 != inputs[j].0
    ensures r.Some? <==> AllBodiesEncode(inputs) && Encodes(query, tokenLen)
    ensures r.Some? ==> CorrectResults(r.value, query, tokenLen, DocumentsOf(inputs), phrase, ByKey)
    ensures r.Some? && ExactQuery(query, tokenLen) ==>
              CorrectResults(r.value, query, tokenLen, DocumentsOf(inputs), phrase, ByToken)
    ensures r.Some? ==> Ranked(r.value, terms, query, tokenLen, DocumentsOf(inputs), phrase, |inputs|, idf)
    ensures r.Some? ==> forall i, j :: 0 <= i < j < |r.value| ==> r.value[i].score >= r.value[j].score
    ensures r.Some? ==> BestFirst(r.value) && Scored(r.value, query, tokenLen, DocumentsOf(inputs), |inputs|, idf)
    ensures r.Some? ==>
              forall i: nat, o: nat :: i < |inputs| && CutOut(inputs[i].1, o, query) && HasToken(query, tokenLen) ==>
                Listed(r.value, i + 1)
  {
    hide CorrectResults, CutOut, HasToken, Listed, Ranked, Encodes, ExactQuery, AllBodiesEncode, Scored;
    var ok, env := IndexAll(inputs, tokenLen, compress, threshold);
    if !ok {
      return None, [];
    }
    r, terms := Search(env, query, phrase, idf);
    assert env.docs[..env.flushed] == DocumentsOf(inputs);
    if r.Some? {
      forall i: nat, o: nat | i < |inputs| && CutOut(inputs[i].1, o, query) && HasToken(query, tokenLen)
        ensures Listed(r.value, i + 1)
      {
        PieceIsAnswered(r.value, query, tokenLen, DocumentsOf(inputs), phrase, ByKey, i, o);
      }
    }
  }
}
