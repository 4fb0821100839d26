/**
 The document leapfrog of search_docs_and (search.c:299-353), with its scoring (search.c:229-243)
 and its result table (search.c:91-129).
 */
module DocumentSearch {
  import opened Wrappers
  import opened GapCode
  import opened PostingsCodec
  import opened PhraseSearch
  import MergeSort

  /** One entry of the query: in how many documents the token occurs, how often in the query, and where there. */
  datatype QueryToken = QueryToken(tokenId: int, docsCount: int, positionsCount: int, bases: seq<int>)

  /** A query token with the postings list fetched for it. */
  datatype Term = Term(token: QueryToken, list: seq<Posting>)

  /** An entry of the result table. */
  datatype Result = Result(documentId: int, score: real)

  /** How the inverse document frequency weighs a token: log2(indexed / docs) in the source. */
  type Idf = (int, int) -> real

  predicate GoodTerm(t: Term)
  {
    && Ascending(0, Ids(t.list))
    && t.token.bases != [] && t.token.positionsCount == |t.token.bases|
    && forall p :: p in t.list ==> Ascending(-1, p.positions)
  }

  predicate GoodTerms(terms: seq<Term>)
  {
    terms != [] && forall t :: t in terms ==> GoodTerm(t)
  }

  // ---------------------------------------------------------------------------
  // What a search should find
  // ---------------------------------------------------------------------------

  function PostingOf(list: seq<Posting>, d: int): (p: Posting)
    requires d in Ids(list)
    ensures p in list && p.documentId == d
  {
    if list[0].documentId == d then list[0] else
    assert Ids(list)[1..] == Ids(list[1..]);
    PostingOf(list[1..], d)
  }

  predicate InAll(terms: seq<Term>, d: int)
  {
    forall t :: t in terms ==> d in Ids(t.list)
  }

  /** In document `d`, shifted by `r`, every occurrence of the query stands where its token stands. */
  predicate PhraseAt(terms: seq<Term>, d: int, r: int)
    requires InAll(terms, d)
  {
    forall t :: t in terms ==> forall b :: b in t.token.bases ==> r + b in PostingOf(t.list, d).positions
  }

  ghost predicate IsHit(terms: seq<Term>, phrase: bool, d: int)
  {
    InAll(terms, d) && (phrase ==> exists r :: PhraseAt(terms, d, r))
  }

  /** calc_tf_idf. */
  function Score(terms: seq<Term>, d: int, indexed: int, idf: Idf): (s: real)
    requires InAll(terms, d)
  {
    if terms == [] then 0.0
    else
      var last := terms[|terms| - 1];
      Score(terms[..|terms| - 1], d, indexed, idf) + Weight(last, d, indexed, idf)
  }

  /** tf times idf of one token. */
  function Weight(t: Term, d: int, indexed: int, idf: Idf): (w: real)
    requires d in Ids(t.list)
  {
    PostingOf(t.list, d).positionsCount as real * idf(indexed, t.token.docsCount)
  }

  /** The hits among the documents of the first term from its entry `k` on. */
  ghost function HitsFrom(terms: seq<Term>, phrase: bool, indexed: int, idf: Idf, k: nat): (hits: seq<Result>)
    requires terms != [] && k <= |terms[0].list|
    decreases |terms[0].list| - k
  {
    if k == |terms[0].list| then []
    else
      var d := terms[0].list[k].documentId;
      (if IsHit(terms, phrase, d) then [Result(d, Score(terms, d, indexed, idf))] else [])
      + HitsFrom(terms, phrase, indexed, idf, k + 1)
  }

  // ---------------------------------------------------------------------------
  // The result table
  // ---------------------------------------------------------------------------

  /** add_search_result: one entry per document, scores added up. */
  function AddResult(results: seq<Result>, h: Result): (r: seq<Result>)
  {
    if results == [] then [h]
    else if results[0].documentId == h.documentId then [Result(h.documentId, results[0].score + h.score)] + results[1..]
    else [results[0]] + AddResult(results[1..], h)
  }

  function AddResults(results: seq<Result>, hits: seq<Result>): (r: seq<Result>)
    decreases |hits|
  {
    if hits == [] then results else AddResults(AddResult(results, hits[0]), hits[1..])
  }

  /** No earlier entry is for the same document. */
  predicate FirstOf(results: seq<Result>, i: nat)
    requires i < |results|
  {
    forall j :: 0 <= j < i ==> results[j].documentId != results[i].documentId
  }

  /** Scores of one document add up in the place of its first entry; a new document goes to the end. */
  method AddSearchResult(results: seq<Result>, h: Result) returns (r: seq<Result>)
    ensures r == AddResult(results, h)
    ensures (forall x :: x in results ==> x.documentId != h.documentId) ==> r == results + [h]
    ensures forall i :: 0 <= i < |results| && results[i].documentId == h.documentId && FirstOf(results, i) ==>
              r == results[i := Result(h.documentId, results[i].score + h.score)]
  {
    hide AddResult;
    var i := 0;
    assert results[0..] == results;
    while i < |results| && results[i].documentId != h.documentId
      invariant 0 <= i <= |results| && forall j :: 0 <= j < i ==> results[j].documentId != h.documentId
      invariant results[..i] + AddResult(results[i..], h) == AddResult(results, h)
    {
      PassResult(results, i, h);
      i := i + 1;
    }
    AddAt(results, i, h);
    if i == |results| {
      r := results + [h];
    } else {
      r := results[i := Result(h.documentId, results[i].score + h.score)];
    }
  }

  lemma PassResult(results: seq<Result>, i: nat, h: Result)
    requires i < |results| && results[i].documentId != h.documentId
    ensures results[..i] + AddResult(results[i..], h) == results[..i + 1] + AddResult(results[i + 1..], h)
  {
    assert results[i..][1..] == results[i + 1..];
    var rest := AddResult(results[i + 1..], h);
    hide AddResult;
    Assoc(results[..i], [results[i]], rest);
    assert results[..i + 1] == results[..i] + [results[i]];
  }

  lemma AddAt(results: seq<Result>, i: nat, h: Result)
    requires i <= |results| && (i < |results| ==> results[i].documentId == h.documentId)
    ensures results[..i] + AddResult(results[i..], h)
            == if i == |results| then results + [h]
               else results[i := Result(h.documentId, results[i].score + h.score)]
  {
    if i < |results| {
      assert results[i..][1..] == results[i + 1..];
    }
  }

  // ---------------------------------------------------------------------------
  // The phrase test at a document
  // ---------------------------------------------------------------------------

  function TokenCursors(bases: seq<int>, positions: seq<int>): (cs: seq<PhraseCursor>)
    ensures |cs| == |bases|
    ensures forall c :: c in cs ==> c.positions == positions && c.base in bases
    ensures forall i :: 0 <= i < |bases| ==> cs[i] == PhraseCursor(bases[i], positions)
    ensures forall b :: b in bases ==> PhraseCursor(b, positions) in cs
  {
    var cs := seq(|bases|, i requires 0 <= i < |bases| => PhraseCursor(bases[i], positions));
    assert forall i :: 0 <= i < |bases| ==> cs[i] == PhraseCursor(bases[i], positions);
    cs
  }

  /** One cursor per query occurrence, over the positions of its token in document `d`. */
  function QueryCursors(terms: seq<Term>, d: int): (cs: seq<PhraseCursor>)
    requires InAll(terms, d)
  {
    if terms == [] then []
    else
      var last := terms[|terms| - 1];
      QueryCursors(terms[..|terms| - 1], d) + TokenCursors(last.token.bases, PostingOf(last.list, d).positions)
  }

  lemma {:induction false} QueryCursorsAre(terms: seq<Term>, d: int)
    requires InAll(terms, d)
    ensures forall c :: c in QueryCursors(terms, d) ==>
              exists t :: t in terms && c.base in t.token.bases && c.positions == PostingOf(t.list, d).positions
    ensures forall t, b :: t in terms && b in t.token.bases ==>
              PhraseCursor(b, PostingOf(t.list, d).positions) in QueryCursors(terms, d)
    decreases |terms|
  {
    hide PostingOf;
    if terms != [] {
      var rest, last := terms[..|terms| - 1], terms[|terms| - 1];
      QueryCursorsAre(rest, d);
      assert terms == rest + [last];
    }
  }

  lemma MatchesIsPhraseAt(terms: seq<Term>, d: int, r: int)
    requires InAll(terms, d)
    ensures Matches(QueryCursors(terms, d), r) <==> PhraseAt(terms, d, r)
  {
    hide PostingOf, QueryCursors;
    QueryCursorsAre(terms, d);
    if Matches(QueryCursors(terms, d), r) {
      forall t, b | t in terms && b in t.token.bases
        ensures r + b in PostingOf(t.list, d).positions
      {
        assert PhraseCursor(b, PostingOf(t.list, d).positions).Has(r);
      }
    }
  }

  // ---------------------------------------------------------------------------
  // Cursors over the lists
  // ---------------------------------------------------------------------------

  predicate ListBelow(list: seq<Posting>, n: nat, d: int)
  {
    n <= |list| && forall k :: 0 <= k < n ==> list[k].documentId < d
  }

  predicate ListOn(list: seq<Posting>, n: nat, d: int)
  {
    n < |list| && list[n].documentId == d
  }

  /** Every cursor sits on document `d`. */
  predicate AllOn(terms: seq<Term>, at: seq<nat>, d: int)
  {
    |at| == |terms| && forall i :: 0 <= i < |terms| ==> ListOn(terms[i].list, at[i], d)
  }

  lemma ListOrder(list: seq<Posting>)
    requires Ascending(0, Ids(list))
    ensures forall i, j :: 0 <= i < j < |list| ==> list[i].documentId < list[j].documentId
    ensures forall i :: 0 <= i < |list| ==> list[i].documentId > 0
  {
    AscendingOrder(0, Ids(list));
    assert forall i :: 0 <= i < |list| ==> Ids(list)[i] == list[i].documentId;
  }

  lemma PostingAt(list: seq<Posting>, k: nat)
    requires Ascending(0, Ids(list)) && k < |list|
    ensures list[k].documentId in Ids(list) && PostingOf(list, list[k].documentId) == list[k]
  {
    assert Ids(list)[k] == list[k].documentId;
    ListOrder(list);
    hide Ascending, Ids, PostingOf;
    var p := PostingOf(list, list[k].documentId);
    var j :| 0 <= j < |list| && list[j] == p;
  }

  lemma ListPassed(list: seq<Posting>, n: nat, d: int)
    requires Ascending(0, Ids(list)) && ListBelow(list, n, d) && (n < |list| ==> d < list[n].documentId)
    ensures d !in Ids(list)
  {
    ListOrder(list);
    forall j | 0 <= j < |list|
      ensures Ids(list)[j] != d
    {
      if j >= n {
        assert list[n].documentId <= list[j].documentId;
      }
    }
  }

  lemma NotInAll(terms: seq<Term>, i: nat, n: nat, d: int)
    requires i < |terms| && GoodTerm(terms[i]) && ListBelow(terms[i].list, n, d)
    requires n < |terms[i].list| ==> d < terms[i].list[n].documentId
    ensures !InAll(terms, d)
  {
    ListPassed(terms[i].list, n, d);
    assert terms[i] in terms;
  }

  lemma AllOnMeansInAll(terms: seq<Term>, at: seq<nat>, d: int)
    requires (forall t :: t in terms ==> GoodTerm(t)) && AllOn(terms, at, d)
    ensures InAll(terms, d)
    ensures forall i :: 0 <= i < |terms| ==> PostingOf(terms[i].list, d) == terms[i].list[at[i]]
  {
    hide GoodTerm;
    forall i | 0 <= i < |terms|
      ensures d in Ids(terms[i].list) && PostingOf(terms[i].list, d) == terms[i].list[at[i]]
    {
      assert Ascending(0, Ids(terms[i].list)) by { TermAscends(terms[i]); }
      PostingAt(terms[i].list, at[i]);
    }
  }

  lemma TermAscends(t: Term)
    requires GoodTerm(t)
    ensures Ascending(0, Ids(t.list))
  {
  }

  /** `while (cur->current && cur->current->document_id < doc_id) cur->current = cur->current->next;` */
  method AdvanceList(list: seq<Posting>, from: nat, d: int) returns (n: nat)
    requires ListBelow(list, from, d)
    ensures ListBelow(list, n, d) && n >= from
    ensures n < |list| ==> list[n].documentId >= d
  {
    n := from;
    while n < |list| && list[n].documentId < d
      invariant ListBelow(list, n, d) && n >= from
    {
      n := n + 1;
    }
  }

  /** The `for` loop of search_docs_and: `next` is 0 when all cursors reached `d`. */
  method SeekTerms(terms: seq<Term>, current: array<nat>, d: int) returns (exhausted: bool, next: int)
    requires GoodTerms(terms) && current.Length == |terms|
    requires forall i :: 1 <= i < |terms| ==> ListBelow(terms[i].list, current[i], d)
    requires ListOn(terms[0].list, current[0], d) && d > 0
    modifies current
    ensures current[0] == old(current[0])
    ensures forall i :: 1 <= i < |terms| ==> ListBelow(terms[i].list, current[i], d)
    ensures exhausted ==> forall x :: d <= x ==> !InAll(terms, x)
    ensures !exhausted && next > 0 ==> next > d && forall x :: d <= x < next ==> !InAll(terms, x)
    ensures !exhausted && next <= 0 ==> AllOn(terms, current[..], d)
  {
    hide GoodTerm, InAll;
    next := 0;
    for i := 1 to |terms|
      invariant current[0] == old(current[0])
      invariant forall j :: 1 <= j < |terms| ==> ListBelow(terms[j].list, current[j], d)
      invariant forall j :: 0 <= j < i ==> ListOn(terms[j].list, current[j], d)
    {
      current[i] := AdvanceList(terms[i].list, current[i], d);
      if current[i] == |terms[i].list| {
        forall x | d <= x
          ensures !InAll(terms, x)
        {
          NotInAll(terms, i, current[i], x);
        }
        return true, 0;
      }
      if terms[i].list[current[i]].documentId != d {
        next := terms[i].list[current[i]].documentId;
        forall x | d <= x < next
          ensures !InAll(terms, x)
        {
          NotInAll(terms, i, current[i], x);
        }
        return false, next;
      }
    }
    return false, 0;
  }

  /** The total count of query positions, as search_phrase adds it up before it allocates its cursors. */
  function CountPositions(terms: seq<Term>): (n: int)
  {
    if terms == [] then 0
    else CountPositions(terms[..|terms| - 1]) + terms[|terms| - 1].token.positionsCount
  }

  /** There are as many cursors as counted positions. */
  lemma {:induction false} CursorsCounted(terms: seq<Term>, d: int)
    requires (forall t :: t in terms ==> GoodTerm(t)) && InAll(terms, d)
    ensures |QueryCursors(terms, d)| == CountPositions(terms)
    decreases |terms|
  {
    if terms != [] {
      var rest, last := terms[..|terms| - 1], terms[|terms| - 1];
      assert last in terms && GoodTerm(last);
      hide GoodTerm, PostingOf;
      CursorsCounted(rest, d);
    }
  }

  lemma {:induction false} CountsGrow(terms: seq<Term>, i: nat)
    requires (forall t :: t in terms ==> GoodTerm(t)) && i <= |terms|
    ensures 0 <= CountPositions(terms[..i]) <= CountPositions(terms)
    decreases |terms|
  {
    if terms != [] {
      var rest, last := terms[..|terms| - 1], terms[|terms| - 1];
      assert last in terms && GoodTerm(last);
      hide GoodTerm;
      var j := if i < |terms| then i else i - 1;
      CountsGrow(rest, j);
      assert rest[..j] == terms[..j] && terms[..|terms|] == terms;
    }
  }

  /** Room for the cursors of entry `i`. */
  lemma CursorsFit(terms: seq<Term>, i: nat, d: int)
    requires (forall t :: t in terms ==> GoodTerm(t)) && InAll(terms, d) && i < |terms|
    ensures InAll(terms[..i], d) && InAll(terms[..i + 1], d)
    ensures QueryCursors(terms[..i + 1], d)
            == QueryCursors(terms[..i], d) + TokenCursors(terms[i].token.bases, PostingOf(terms[i].list, d).positions)
    ensures |QueryCursors(terms[..i], d)| + |terms[i].token.bases| <= CountPositions(terms)
  {
    hide GoodTerm, PostingOf;
    InAllPrefix(terms, i, d);
    InAllPrefix(terms, i + 1, d);
    assert terms[..i + 1][..i] == terms[..i];
    CursorsCounted(terms[..i + 1], d);
    hide CountPositions;
    CountsGrow(terms, i + 1);
  }

  /**
   The cursors that search_phrase sets up, from the document cursors. The array has room for the added-up counts;
   exactly that many cursors are filled in, so none is written behind its end.
   */
  method BuildCursors(terms: seq<Term>, current: array<nat>, ghost d: int) returns (cs: array<PhraseCursor>)
    requires (forall t :: t in terms ==> GoodTerm(t)) && current.Length == |terms| && AllOn(terms, current[..], d)
    ensures fresh(cs) && cs.Length == CountPositions(terms)
    ensures InAll(terms, d) && cs[..] == QueryCursors(terms, d)
  {
    hide GoodTerm, PostingOf, InAll, QueryCursors;
    AllOnMeansInAll(terms, current[..], d);
    var size := SumPositions(terms);
    CountsGrow(terms, 0);
    cs := new PhraseCursor[size];
    var filled := 0;
    InAllPrefix(terms, 0, d);
    NoCursors(d);
    for i := 0 to |terms|
      invariant InAll(terms[..i], d) && filled == |QueryCursors(terms[..i], d)| <= size
      invariant cs[..filled] == QueryCursors(terms[..i], d)
    {
      CursorsFit(terms, i, d);
      ghost var before := QueryCursors(terms[..i], d);
      var bases, positions := terms[i].token.bases, terms[i].list[current[i]].positions;
      for j := 0 to |bases|
        invariant filled == |before| + j
        invariant cs[..filled] == before + TokenCursors(bases, positions)[..j]
      {
        cs[filled] := PhraseCursor(bases[j], positions);
        assert cs[..filled + 1] == cs[..filled] + [cs[filled]];
        filled := filled + 1;
      }
    }
    assert terms[..|terms|] == terms;
    CursorsCounted(terms, d);
  }

  /** `for (qt = query_tokens; qt; qt = qt->hh.next) n_positions += qt->positions_count;` */
  method SumPositions(terms: seq<Term>) returns (n: int)
    ensures n == CountPositions(terms)
  {
    n := 0;
    for i := 0 to |terms|
      invariant n == CountPositions(terms[..i])
    {
      assert terms[..i + 1][..i] == terms[..i];
      n := n + terms[i].token.positionsCount;
    }
    assert terms[..|terms|] == terms;
  }

  lemma NoCursors(d: int)
    ensures QueryCursors([], d) == []
  {
  }

  lemma InAllPrefix(terms: seq<Term>, i: nat, d: int)
    requires i <= |terms| && InAll(terms, d)
    ensures InAll(terms[..i], d)
  {
  }

  /** search_phrase at the documents the cursors sit on. */
  method SearchPhrase(terms: seq<Term>, current: array<nat>, ghost d: int) returns (count: nat)
    requires GoodTerms(terms) && current.Length == |terms| && AllOn(terms, current[..], d)
    ensures InAll(terms, d) && QueryCursors(terms, d) != [] && count == |MatchingShifts(QueryCursors(terms, d))|
    ensures count > 0 <==> exists r :: PhraseAt(terms, d, r)
  {
    hide PostingOf, AllOn, Matches, PhraseAt, MatchingShifts, InAll, QueryCursors;
    var cursors := BuildCursors(terms, current, d);
    var cs := cursors[..];
    CursorsSorted(terms, d);
    count := CountPhrases(cs);
    forall r
      ensures r in MatchingShifts(cs) <==> PhraseAt(terms, d, r)
    {
      MatchesIsPhraseAt(terms, d, r);
    }
    assert cs[0].Sorted();
    CountIsCardinality(cs);
    if count > 0 {
      ghost var r := CountFindsMatch(cs, 0);
      assert PhraseAt(terms, d, r);
    }
  }

  lemma CursorsSorted(terms: seq<Term>, d: int)
    requires GoodTerms(terms) && InAll(terms, d)
    ensures QueryCursors(terms, d) != []
    ensures forall c :: c in QueryCursors(terms, d) ==> c.Sorted()
  {
    QueryCursorsAre(terms, d);
    var t := terms[0];
    assert t in terms && GoodTerm(t);
    assert PhraseCursor(t.token.bases[0], PostingOf(t.list, d).positions) in QueryCursors(terms, d);
  }

  /** calc_tf_idf at the documents the cursors sit on. */
  method CalcTfIdf(terms: seq<Term>, current: array<nat>, indexed: int, idf: Idf, ghost d: int) returns (score: real)
    requires (forall t :: t in terms ==> GoodTerm(t)) && current.Length == |terms| && AllOn(terms, current[..], d)
    ensures InAll(terms, d) && score == Score(terms, d, indexed, idf)
  {
    hide GoodTerm, PostingOf, InAll;
    AllOnMeansInAll(terms, current[..], d);
    score := 0.0;
    InAllPrefix(terms, 0, d);
    for i := 0 to |terms|
      invariant InAll(terms[..i], d) && score == Score(terms[..i], d, indexed, idf)
    {
      InAllPrefix(terms, i + 1, d);
      assert terms[..i + 1][..i] == terms[..i];
      score := score + terms[i].list[current[i]].positionsCount as real * idf(indexed, terms[i].token.docsCount);
    }
    assert terms[..|terms|] == terms;
  }

  lemma {:induction false} SkipNoHits(terms: seq<Term>, phrase: bool, indexed: int, idf: Idf, k: nat, j: nat)
    requires terms != [] && k <= j <= |terms[0].list|
    requires forall i :: k <= i < j ==> !IsHit(terms, phrase, terms[0].list[i].documentId)
    ensures HitsFrom(terms, phrase, indexed, idf, k) == HitsFrom(terms, phrase, indexed, idf, j)
    decreases j - k
  {
    hide IsHit;
    if k < j {
      SkipNoHits(terms, phrase, indexed, idf, k + 1, j);
    }
  }

  /** The `while` loop of search_docs_and. */
  method LeapfrogDocuments(terms: seq<Term>, phrase: bool, indexed: int, idf: Idf, results0: seq<Result>)
      returns (results: seq<Result>)
    requires GoodTerms(terms)
    ensures results == AddResults(results0, HitsFrom(terms, phrase, indexed, idf, 0))
  {
    hide GoodTerm, InAll, AllOn, AddResults, IsHit, Score;
    var current := new nat[|terms|](_ => 0);
    results := results0;
    while current[0] < |terms[0].list|
      invariant current[0] <= |terms[0].list|
      invariant current[0] < |terms[0].list| ==>
                  forall i :: 1 <= i < |terms| ==>
                    ListBelow(terms[i].list, current[i], terms[0].list[current[0]].documentId)
      invariant AddResults(results, HitsFrom(terms, phrase, indexed, idf, current[0]))
                == AddResults(results0, HitsFrom(terms, phrase, indexed, idf, 0))
      decreases |terms[0].list| - current[0]
    {
      var k := current[0];
      var d := terms[0].list[k].documentId;
      assert Ascending(0, Ids(terms[0].list)) by { TermAscends(terms[0]); }
      ListOrder(terms[0].list);
      var exhausted, next := SeekTerms(terms, current, d);
      if exhausted {
        NoHitsFrom(terms, phrase, d);
        SkipNoHits(terms, phrase, indexed, idf, k, |terms[0].list|);
        AddNone(results);
        return;
      }
      if next > 0 {
        current[0] := AdvanceFirstList(terms, phrase, indexed, idf, k, next);
      } else {
        results := VisitHit(terms, phrase, indexed, idf, current, d, results);
        current[0] := current[0] + 1;
      }
    }
    AddNone(results);
  }

  lemma AddNone(results: seq<Result>)
    ensures AddResults(results, []) == results
  {
  }

  lemma NoHitsFrom(terms: seq<Term>, phrase: bool, d: int)
    requires forall x :: d <= x ==> !InAll(terms, x)
    ensures forall x :: d <= x ==> !IsHit(terms, phrase, x)
  {
  }

  method AdvanceFirstList(terms: seq<Term>, phrase: bool, ghost indexed: int, ghost idf: Idf, k: nat, next: int)
      returns (n: nat)
    requires GoodTerms(terms) && k < |terms[0].list| && terms[0].list[k].documentId < next
    requires forall x :: terms[0].list[k].documentId <= x < next ==> !InAll(terms, x)
    ensures k < n <= |terms[0].list|
    ensures HitsFrom(terms, phrase, indexed, idf, n) == HitsFrom(terms, phrase, indexed, idf, k)
  {
    hide InAll, HitsFrom;
    var list := terms[0].list;
    TermAscends(terms[0]);
    ListOrder(list);
    n := k;
    while n < |list| && list[n].documentId < next
      invariant k <= n <= |list| && (n == k ==> list[n].documentId < next)
      invariant forall i :: k <= i < n ==> list[i].documentId < next
    {
      n := n + 1;
    }
    SkipNoHits(terms, phrase, indexed, idf, k, n);
  }

  /** The `else` branch: all cursors sit on `d`; test the phrase, score, and record. */
  method VisitHit(terms: seq<Term>, phrase: bool, indexed: int, idf: Idf, current: array<nat>, d: int,
                  results: seq<Result>)
      returns (r: seq<Result>)
    requires GoodTerms(terms) && current.Length == |terms| && AllOn(terms, current[..], d)
    ensures var k := current[0];
            && k < |terms[0].list| && terms[0].list[k].documentId == d
            && AddResults(r, HitsFrom(terms, phrase, indexed, idf, k + 1))
               == AddResults(results, HitsFrom(terms, phrase, indexed, idf, k))
  {
    hide GoodTerm, InAll, AddResult, PhraseAt, Score;
    assert ListOn(terms[0].list, current[..][0], d);
    var phraseCount: int := -1;
    if phrase {
      phraseCount := SearchPhrase(terms, current, d);
    }
    AllOnMeansInAll(terms, current[..], d);
    r := results;
    ghost var rest := HitsFrom(terms, phrase, indexed, idf, current[0] + 1);
    assert [] + rest == rest;
    if phraseCount != 0 {
      var score := CalcTfIdf(terms, current, indexed, idf, d);
      r := AddSearchResult(results, Result(d, score));
      assert ([Result(d, score)] + rest)[1..] == rest;
    }
  }

  // ---------------------------------------------------------------------------
  // What the result table says
  // ---------------------------------------------------------------------------

  predicate AscendingResults(rs: seq<Result>)
  {
    forall i, j :: 0 <= i < j < |rs| ==> rs[i].documentId < rs[j].documentId
  }

  lemma {:induction false} HitsFromAre(terms: seq<Term>, phrase: bool, indexed: int, idf: Idf, k: nat)
    requires GoodTerms(terms) && k <= |terms[0].list|
    ensures var hits := HitsFrom(terms, phrase, indexed, idf, k);
            && AscendingResults(hits)
            && (forall h :: h in hits ==>
                  exists i :: k <= i < |terms[0].list| && terms[0].list[i].documentId == h.documentId)
            && (forall h :: h in hits ==>
                  IsHit(terms, phrase, h.documentId) && h.score == Score(terms, h.documentId, indexed, idf))
            && (forall i :: k <= i < |terms[0].list| && IsHit(terms, phrase, terms[0].list[i].documentId) ==>
                  exists h :: h in hits && h.documentId == terms[0].list[i].documentId)
    decreases |terms[0].list| - k
  {
    hide InAll, PhraseAt, Score, GoodTerm;
    TermAscends(terms[0]);
    ListOrder(terms[0].list);
    if k < |terms[0].list| {
      HitsFromAre(terms, phrase, indexed, idf, k + 1);
      var d, rest := terms[0].list[k].documentId, HitsFrom(terms, phrase, indexed, idf, k + 1);
      if IsHit(terms, phrase, d) {
        var h := Result(d, Score(terms, d, indexed, idf));
        assert HitsFrom(terms, phrase, indexed, idf, k) == [h] + rest;
        assert h in [h] + rest;
      } else {
        assert HitsFrom(terms, phrase, indexed, idf, k) == rest;
      }
    }
  }

  /**
   search_docs_and in one sentence: its hits are exactly the documents that occur in every list
   and contain the phrase, once each, in ascending order, with their tf-idf score.
   */
  lemma HitsAre(terms: seq<Term>, phrase: bool, indexed: int, idf: Idf)
    requires GoodTerms(terms)
    ensures var hits := HitsFrom(terms, phrase, indexed, idf, 0);
            && AscendingResults(hits)
            && (forall h :: h in hits <==>
                  IsHit(terms, phrase, h.documentId) && h.score == Score(terms, h.documentId, indexed, idf))
  {
    hide PhraseAt, Score, GoodTerm;
    HitsFromAre(terms, phrase, indexed, idf, 0);
    forall h: Result | IsHit(terms, phrase, h.documentId) && h.score == Score(terms, h.documentId, indexed, idf)
      ensures h in HitsFrom(terms, phrase, indexed, idf, 0)
    {
      assert terms[0] in terms;
      var i :| 0 <= i < |terms[0].list| && Ids(terms[0].list)[i] == h.documentId;
      assert terms[0].list[i].documentId == h.documentId;
    }
  }

  /** A fresh result table ends up as the list of hits itself. */
  lemma {:induction false} FreshTable(done: seq<Result>, hits: seq<Result>)
    requires AscendingResults(done + hits)
    ensures AddResults(done, hits) == done + hits
    decreases |hits|
  {
    if hits == [] {
      assert done + hits == done;
    } else {
      assert (done + hits)[|done|] == hits[0];
      assert forall i :: 0 <= i < |done| ==> (done + hits)[i] == done[i];
      AddNew(done, hits[0]);
      assert done + hits == (done + [hits[0]]) + hits[1..];
      FreshTable(done + [hits[0]], hits[1..]);
    }
  }

  lemma {:induction false} AddNew(results: seq<Result>, h: Result)
    requires forall r :: r in results ==> r.documentId != h.documentId
    ensures AddResult(results, h) == results + [h]
    decreases |results|
  {
    if results != [] {
      AddNew(results[1..], h);
      assert results + [h] == [results[0]] + (results[1..] + [h]);
    }
  }

  // ---------------------------------------------------------------------------
  // The order of the tokens does not matter
  // ---------------------------------------------------------------------------

  lemma {:induction false} ScoreWithout(terms: seq<Term>, j: nat, d: int, indexed: int, idf: Idf)
    requires InAll(terms, d) && j < |terms|
    ensures InAll(terms[..j] + terms[j + 1..], d)
    ensures Score(terms, d, indexed, idf)
            == Score(terms[..j] + terms[j + 1..], d, indexed, idf) + Weight(terms[j], d, indexed, idf)
    decreases |terms|
  {
    hide Weight;
    var n := |terms| - 1;
    var without := terms[..j] + terms[j + 1..];
    assert terms[..n] + [terms[n]] == terms;
    if j < n {
      ScoreWithout(terms[..n], j, d, indexed, idf);
      assert terms[..n][..j] + terms[..n][j + 1..] == without[..n - 1];
      assert without[n - 1] == terms[n];
    } else {
      assert without == terms[..n];
    }
  }

  lemma {:induction false} ScoreOrderFree(terms: seq<Term>, terms': seq<Term>, d: int, indexed: int, idf: Idf)
    requires multiset(terms) == multiset(terms') && InAll(terms, d)
    ensures InAll(terms', d) && Score(terms, d, indexed, idf) == Score(terms', d, indexed, idf)
    decreases |terms|
  {
    hide Weight, Score;
    InAllOrderFree(terms, terms', d);
    if terms == [] {
      SameLength(terms, terms');
    } else {
      var j := FindFirst(terms, terms');
      ScoreWithout(terms, 0, d, indexed, idf);
      ScoreWithout(terms', j, d, indexed, idf);
      assert terms[..0] + terms[1..] == terms[1..];
      ScoreOrderFree(terms[1..], terms'[..j] + terms'[j + 1..], d, indexed, idf);
    }
  }

  lemma InAllOrderFree(terms: seq<Term>, terms': seq<Term>, d: int)
    requires multiset(terms) == multiset(terms')
    ensures InAll(terms, d) <==> InAll(terms', d)
  {
    MergeSort.SameElements(terms, terms');
  }

  lemma IsHitOrderFree(terms: seq<Term>, terms': seq<Term>, phrase: bool, d: int)
    requires multiset(terms) == multiset(terms')
    ensures IsHit(terms, phrase, d) <==> IsHit(terms', phrase, d)
  {
    MergeSort.SameElements(terms, terms');
    InAllOrderFree(terms, terms', d);
    if InAll(terms, d) {
      forall r
        ensures PhraseAt(terms, d, r) <==> PhraseAt(terms', d, r)
      {
      }
    }
  }

  lemma {:induction false} AscendingDetermined(rs: seq<Result>, rs': seq<Result>)
    requires AscendingResults(rs) && AscendingResults(rs')
    requires forall h :: h in rs <==> h in rs'
    ensures rs == rs'
    decreases |rs|
  {
    assert rs' != [] ==> rs'[0] in rs';
    if rs != [] {
      assert rs[0] in rs && rs' != [];
      assert rs'[0] in rs' && rs[0] in rs';
      assert rs[0] == rs'[0];
      forall h
        ensures h in rs[1..] <==> h in rs'[1..]
      {
        TailMember(rs, h);
        TailMember(rs', h);
      }
      AscendingDetermined(rs[1..], rs'[1..]);
      assert rs == [rs[0]] + rs[1..] && rs' == [rs'[0]] + rs'[1..];
    }
  }

  lemma TailMember(rs: seq<Result>, h: Result)
    requires rs != [] && AscendingResults(rs)
    ensures h in rs[1..] <==> h in rs && h != rs[0]
  {
    if h in rs && h != rs[0] {
      var i :| 0 <= i < |rs| && rs[i] == h;
      assert rs[1..][i - 1] == h;
    }
    if h in rs[1..] {
      var i :| 0 <= i < |rs[1..]| && rs[1..][i] == h;
      assert rs[i + 1] == h;
    }
  }

  /** Whatever order HASH_SORT leaves the tokens in, hits, order and scores are the same. */
  lemma HitsOrderFree(terms: seq<Term>, terms': seq<Term>, phrase: bool, indexed: int, idf: Idf)
    requires GoodTerms(terms) && multiset(terms) == multiset(terms')
    ensures GoodTerms(terms')
    ensures HitsFrom(terms, phrase, indexed, idf, 0) == HitsFrom(terms', phrase, indexed, idf, 0)
  {
    hide GoodTerm, IsHit, Score, HitsFrom, AscendingResults;
    MergeSort.SameElements(terms, terms');
    assert terms[0] in terms';
    HitsAre(terms, phrase, indexed, idf);
    HitsAre(terms', phrase, indexed, idf);
    var hits, hits' := HitsFrom(terms, phrase, indexed, idf, 0), HitsFrom(terms', phrase, indexed, idf, 0);
    forall h
      ensures h in hits <==> h in hits'
    {
      HitOrderFree(terms, terms', phrase, indexed, idf, h);
    }
    AscendingDetermined(hits, hits');
  }

  lemma HitOrderFree(terms: seq<Term>, terms': seq<Term>, phrase: bool, indexed: int, idf: Idf, h: Result)
    requires multiset(terms) == multiset(terms')
    ensures (IsHit(terms, phrase, h.documentId) && h.score == Score(terms, h.documentId, indexed, idf))
            <==> (IsHit(terms', phrase, h.documentId) && h.score == Score(terms', h.documentId, indexed, idf))
  {
    hide Score, PhraseAt;
    IsHitOrderFree(terms, terms', phrase, h.documentId);
    if InAll(terms, h.documentId) {
      ScoreOrderFree(terms, terms', h.documentId, indexed, idf);
    }
  }
}
