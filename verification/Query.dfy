/**
 What a query asks for, said over token streams, and what that means over the stored lists.
 */
module Query {
  import opened PostingsCodec
  import opened Tokenizer
  import opened TokenKey
  import opened SimpleIndex
  import opened InvertedIndex
  import opened DocumentSearch

  /** Tokens are meant to be compared themselves; the engine compares their keys. */
  datatype Comparison = ByToken | ByKey

  predicate Same(how: Comparison, u: Text, v: Text)
  {
    match how
    case ByToken => u == v
    case ByKey => KeyOf(u) == KeyOf(v)
  }

  ghost predicate IsKept(q: Text, n: nat, b: int)
    requires n > 0
  {
    0 <= b < |Stream(q, n)| && |Stream(q, n)[b]| >= n
  }

  /** Token `k` of the text is token `b` of the query. */
  ghost predicate StandsAt(body: Text, q: Text, n: nat, how: Comparison, k: int, b: int)
    requires n > 0
  {
    0 <= k < |Stream(body, n)| && 0 <= b < |Stream(q, n)| && Same(how, Stream(body, n)[k], Stream(q, n)[b])
  }

  /** The text holds the kept tokens of the query, all shifted by `r`. */
  ghost predicate OccursAt(body: Text, q: Text, n: nat, how: Comparison, r: int)
    requires n > 0
  {
    forall b :: IsKept(q, n, b) ==> StandsAt(body, q, n, how, r + b, b)
  }

  /** The text holds every kept token of the query somewhere. */
  ghost predicate HoldsAll(body: Text, q: Text, n: nat, how: Comparison)
    requires n > 0
  {
    forall b :: IsKept(q, n, b) ==> exists k :: StandsAt(body, q, n, how, k, b)
  }

  /** What a search should find, or finds. */
  ghost predicate Answers(body: Text, q: Text, n: nat, phrase: bool, how: Comparison)
    requires n > 0
  {
    if phrase then exists r :: OccursAt(body, q, n, how, r) else HoldsAll(body, q, n, how)
  }

  /** The query has a full-length token. */
  ghost predicate HasToken(q: Text, n: nat)
    requires n > 0
  {
    exists b :: IsKept(q, n, b)
  }

  // ---------------------------------------------------------------------------
  // Looking a document up in the simple index
  // ---------------------------------------------------------------------------

  predicate InBody(docs: seq<Document>, n: nat, t: Key, d: int)
    requires n > 0
  {
    1 <= d <= |docs| && PositionsIn(docs[d - 1].body, n, t) != []
  }

  lemma {:induction false} IndexLookup(docs: seq<Document>, n: nat, t: Key, d: int)
    requires n > 0 && GoodDocs(docs, 0)
    ensures d in Ids(IndexOf(docs, n, t)) <==> InBody(docs, n, t, d)
    ensures forall p :: p in IndexOf(docs, n, t) && p.documentId == d ==>
              && InBody(docs, n, t, d) && p.positions == PositionsIn(docs[d - 1].body, n, t)
              && p.positionsCount == |p.positions|
    decreases |docs|
  {
    hide PositionsIn;
    if docs != [] {
      var k := |docs| - 1;
      IndexLookup(docs[..k], n, t, d);
      var ps, add := IndexOf(docs[..k], n, t), DocPostings(docs[k], n, t);
      IdsConcat(ps, add);
      if PositionsIn(docs[k].body, n, t) != [] {
        assert Ids(add) == [docs[k].id];
      } else {
        assert Ids(add) == [];
      }
    }
  }

  lemma IdsConcat(a: seq<Posting>, b: seq<Posting>)
    ensures Ids(a + b) == Ids(a) + Ids(b)
  {
  }

  lemma PositionsLookup(docs: seq<Document>, n: nat, t: Key, d: int)
    requires n > 0 && GoodDocs(docs, 0) && d in Ids(IndexOf(docs, n, t))
    ensures 1 <= d <= |docs| && PostingOf(IndexOf(docs, n, t), d).positions == PositionsIn(docs[d - 1].body, n, t)
    ensures PostingOf(IndexOf(docs, n, t), d).positionsCount == |PositionsIn(docs[d - 1].body, n, t)|
  {
    hide PositionsIn, IndexOf, Ids;
    IndexLookup(docs, n, t, d);
  }

  lemma PositionsMean(body: Text, n: nat, t: Key)
    requires n > 0
    ensures forall p :: p in PositionsIn(body, n, t) <==> 0 <= p < |Stream(body, n)| && KeyOf(Stream(body, n)[p]) == t
    ensures PositionsIn(body, n, t) != [] <==> exists k :: 0 <= k < |Stream(body, n)| && KeyOf(Stream(body, n)[k]) == t
  {
    hide Occurrences, Stream, KeyOf;
    var s := Stream(body, n);
    OccurrencesAre(s, t, |s|);
    var ps := PositionsIn(body, n, t);
    if k :| 0 <= k < |s| && KeyOf(s[k]) == t {
      assert k in ps;
    } else {
      AbsentToken(s, t, |s|);
    }
  }

  // ---------------------------------------------------------------------------
  // The terms of a query
  // ---------------------------------------------------------------------------

  /** Tokens with key `t` stand at exactly the positions `bases` among the kept tokens of the query. */
  ghost predicate BasesOf(bases: seq<int>, t: Key, q: Text, n: nat)
    requires n > 0
  {
    forall b :: b in bases <==> IsKept(q, n, b) && KeyOf(Stream(q, n)[b]) == t
  }

  ghost predicate TermOf(term: Term, t: Key, q: Text, n: nat, docs: seq<Document>)
    requires n > 0
  {
    && BasesOf(term.token.bases, t, q, n) && term.token.bases != []
    && term.token.positionsCount == |term.token.bases|
    && term.list == IndexOf(docs, n, t) && term.token.docsCount == |term.list|
  }

  ghost predicate IsTerm(term: Term, q: Text, n: nat, docs: seq<Document>)
    requires n > 0
  {
    exists t :: TermOf(term, t, q, n, docs)
  }

  /** One term for every different key of a kept query token: no occurrence belongs to two terms. */
  ghost predicate TermsOf(terms: seq<Term>, q: Text, n: nat, docs: seq<Document>)
    requires n > 0
  {
    && (forall x :: x in terms ==> IsTerm(x, q, n, docs))
    && (forall b :: IsKept(q, n, b) ==> exists x :: x in terms && TermOf(x, KeyOf(Stream(q, n)[b]), q, n, docs))
    && (forall i, j :: 0 <= i < j < |terms| ==> Apart(terms[i].token, terms[j].token))
  }

  predicate Apart(x: QueryToken, y: QueryToken)
  {
    forall b :: b in x.bases ==> b !in y.bases
  }

  lemma InAllMeans(terms: seq<Term>, q: Text, n: nat, docs: seq<Document>, d: int)
    requires n > 0 && GoodDocs(docs, 0) && TermsOf(terms, q, n, docs) && 1 <= d <= |docs|
    ensures InAll(terms, d) <==> HoldsAll(docs[d - 1].body, q, n, ByKey)
  {
    hide IndexOf, Ids, PositionsIn, Stream, Kept, GoodDocs, KeyOf;
    var body := docs[d - 1].body;
    if InAll(terms, d) {
      forall b | IsKept(q, n, b)
        ensures exists k :: StandsAt(body, q, n, ByKey, k, b)
      {
        var t := KeyOf(Stream(q, n)[b]);
        var x :| x in terms && TermOf(x, t, q, n, docs);
        IndexLookup(docs, n, t, d);
        PositionsMean(body, n, t);
        var k :| 0 <= k < |Stream(body, n)| && KeyOf(Stream(body, n)[k]) == t;
        assert StandsAt(body, q, n, ByKey, k, b);
      }
    }
    if HoldsAll(body, q, n, ByKey) {
      forall x | x in terms
        ensures d in Ids(x.list)
      {
        var t :| TermOf(x, t, q, n, docs);
        var b := x.token.bases[0];
        assert b in x.token.bases;
        var k :| StandsAt(body, q, n, ByKey, k, b);
        IndexLookup(docs, n, t, d);
        PositionsMean(body, n, t);
      }
    }
  }

  lemma PhraseMeans(terms: seq<Term>, q: Text, n: nat, docs: seq<Document>, d: int, r: int)
    requires n > 0 && GoodDocs(docs, 0) && TermsOf(terms, q, n, docs) && 1 <= d <= |docs| && InAll(terms, d)
    ensures PhraseAt(terms, d, r) <==> OccursAt(docs[d - 1].body, q, n, ByKey, r)
  {
    hide IndexOf, Ids, PositionsIn, Stream, Kept, GoodDocs, PostingOf, KeyOf;
    var body := docs[d - 1].body;
    if PhraseAt(terms, d, r) {
      forall b | IsKept(q, n, b)
        ensures StandsAt(body, q, n, ByKey, r + b, b)
      {
        var t := KeyOf(Stream(q, n)[b]);
        var x :| x in terms && TermOf(x, t, q, n, docs);
        PositionsLookup(docs, n, t, d);
        PositionsMean(body, n, t);
      }
    }
    if OccursAt(body, q, n, ByKey, r) {
      forall x, b | x in terms && b in x.token.bases
        ensures r + b in PostingOf(x.list, d).positions
      {
        var t :| TermOf(x, t, q, n, docs);
        assert IsKept(q, n, b) && StandsAt(body, q, n, ByKey, r + b, b);
        PositionsLookup(docs, n, t, d);
        PositionsMean(body, n, t);
      }
    }
  }

  /** A shifted occurrence is more than an occurrence of every token. */
  lemma OccursMeansHolds(body: Text, q: Text, n: nat, how: Comparison, r: int)
    requires n > 0
    ensures OccursAt(body, q, n, how, r) ==> HoldsAll(body, q, n, how)
  {
    hide StandsAt, IsKept;
    if OccursAt(body, q, n, how, r) {
      forall b | IsKept(q, n, b)
        ensures exists k :: StandsAt(body, q, n, how, k, b)
      {
        assert StandsAt(body, q, n, how, r + b, b);
      }
    }
  }

  // ---------------------------------------------------------------------------
  // Scores
  // ---------------------------------------------------------------------------

  /** The different keys of the kept tokens of the query. */
  ghost function QueryKeys(q: Text, n: nat): (keys: set<Key>)
    requires n > 0
  {
    set b | 0 <= b < |Stream(q, n)| && IsKept(q, n, b) :: KeyOf(Stream(q, n)[b])
  }

  /** How often the key occurs in document `d`, times the weight that its number of documents gives it. */
  ghost function KeyScore(docs: seq<Document>, n: nat, t: Key, d: int, indexed: int, idf: Idf): (s: real)
    requires n > 0 && 1 <= d <= |docs|
  {
    |PositionsIn(docs[d - 1].body, n, t)| as real * idf(indexed, |IndexOf(docs, n, t)|)
  }

  /** The sum over a set of keys. */
  ghost function KeyScores(docs: seq<Document>, n: nat, keys: set<Key>, d: int, indexed: int, idf: Idf): (s: real)
    requires n > 0 && 1 <= d <= |docs|
  {
    if keys == {} then 0.0
    else
      var t :| t in keys;
      KeyScore(docs, n, t, d, indexed, idf) + KeyScores(docs, n, keys - {t}, d, indexed, idf)
  }

  lemma {:induction false} KeyScoresWithout(docs: seq<Document>, n: nat, keys: set<Key>, t: Key, d: int, indexed: int,
                                            idf: Idf)
    requires n > 0 && 1 <= d <= |docs| && t in keys
    ensures KeyScores(docs, n, keys, d, indexed, idf)
            == KeyScore(docs, n, t, d, indexed, idf) + KeyScores(docs, n, keys - {t}, d, indexed, idf)
    decreases keys
  {
    hide KeyScore;
    var u :| u in keys && KeyScores(docs, n, keys, d, indexed, idf)
      == KeyScore(docs, n, u, d, indexed, idf) + KeyScores(docs, n, keys - {u}, d, indexed, idf);
    if u != t {
      KeyScoresWithout(docs, n, keys - {u}, t, d, indexed, idf);
      KeyScoresWithout(docs, n, keys - {t}, u, d, indexed, idf);
      assert keys - {u} - {t} == keys - {t} - {u};
    }
  }

  /** The key of a term: that of its first place in the query. */
  ghost function KeyOfTerm(x: Term, q: Text, n: nat): (t: Key)
    requires n > 0
  {
    if x.token.bases != [] && 0 <= x.token.bases[0] < |Stream(q, n)| then KeyOf(Stream(q, n)[x.token.bases[0]]) else []
  }

  lemma TermHasKey(x: Term, t: Key, q: Text, n: nat, docs: seq<Document>)
    requires n > 0 && TermOf(x, t, q, n, docs)
    ensures KeyOfTerm(x, q, n) == t && IsKept(q, n, x.token.bases[0])
  {
    hide Stream, KeyOf, IndexOf;
    assert x.token.bases[0] in x.token.bases;
  }

  lemma TermWeight(x: Term, t: Key, q: Text, n: nat, docs: seq<Document>, d: int, indexed: int, idf: Idf)
    requires n > 0 && GoodDocs(docs, 0) && TermOf(x, t, q, n, docs) && d in Ids(x.list)
    ensures 1 <= d <= |docs| && Weight(x, d, indexed, idf) == KeyScore(docs, n, t, d, indexed, idf)
  {
    hide PositionsIn, IndexOf, Ids, BasesOf, GoodDocs, PostingOf;
    PositionsLookup(docs, n, t, d);
  }

  /** Terms that share no place of the query have different keys. */
  lemma KeysApart(x: Term, y: Term, t: Key, u: Key, q: Text, n: nat, docs: seq<Document>)
    requires n > 0 && TermOf(x, t, q, n, docs) && TermOf(y, u, q, n, docs) && Apart(x.token, y.token)
    ensures t != u
  {
    hide Stream, KeyOf, IndexOf, IsKept;
    var b := x.token.bases[0];
    assert b in x.token.bases;
  }

  /** The score over some of the terms is the sum over their keys. */
  lemma {:induction false} ScoreOverKeys(terms: seq<Term>, q: Text, n: nat, docs: seq<Document>, d: int, indexed: int,
                                         idf: Idf)
    requires n > 0 && GoodDocs(docs, 0) && 1 <= d <= |docs| && InAll(terms, d)
    requires forall x :: x in terms ==> IsTerm(x, q, n, docs)
    requires forall i, j :: 0 <= i < j < |terms| ==> Apart(terms[i].token, terms[j].token)
    ensures Score(terms, d, indexed, idf) == KeyScores(docs, n, KeysOfTerms(terms, q, n), d, indexed, idf)
    decreases |terms|
  {
    hide IsTerm, TermOf, Apart, KeyOfTerm, KeysOfTerms, Weight, KeyScore, KeyScores, GoodDocs, Ids;
    if terms == [] {
      NoKeys(docs, q, n, d, indexed, idf);
    } else {
      var rest, last := terms[..|terms| - 1], terms[|terms| - 1];
      assert last in terms && forall x :: x in rest ==> x in terms;
      ScoreOverKeys(rest, q, n, docs, d, indexed, idf);
      var t := TermKey(last, q, n, docs);
      TermWeight(last, t, q, n, docs, d, indexed, idf);
      LastKeyIsNew(terms, t, q, n, docs);
      KeyScoresWithout(docs, n, KeysOfTerms(terms, q, n), t, d, indexed, idf);
    }
  }

  ghost function KeysOfTerms(terms: seq<Term>, q: Text, n: nat): (keys: set<Key>)
    requires n > 0
  {
    set x | x in terms :: KeyOfTerm(x, q, n)
  }

  lemma TermKey(x: Term, q: Text, n: nat, docs: seq<Document>) returns (t: Key)
    requires n > 0 && IsTerm(x, q, n, docs)
    ensures TermOf(x, t, q, n, docs) && KeyOfTerm(x, q, n) == t
  {
    t :| TermOf(x, t, q, n, docs);
    TermHasKey(x, t, q, n, docs);
  }

  lemma NoKeys(docs: seq<Document>, q: Text, n: nat, d: int, indexed: int, idf: Idf)
    requires n > 0 && 1 <= d <= |docs|
    ensures KeyScores(docs, n, KeysOfTerms([], q, n), d, indexed, idf) == 0.0
  {
    assert KeysOfTerms([], q, n) == {};
  }

  lemma LastKeyIsNew(terms: seq<Term>, t: Key, q: Text, n: nat, docs: seq<Document>)
    requires n > 0 && terms != [] && TermOf(terms[|terms| - 1], t, q, n, docs)
    requires forall x :: x in terms ==> IsTerm(x, q, n, docs)
    requires forall i, j :: 0 <= i < j < |terms| ==> Apart(terms[i].token, terms[j].token)
    ensures t in KeysOfTerms(terms, q, n)
    ensures KeysOfTerms(terms, q, n) - {t} == KeysOfTerms(terms[..|terms| - 1], q, n)
  {
    hide TermOf, IsTerm, Apart, KeyOfTerm;
    var k := |terms| - 1;
    var rest := terms[..k];
    TermHasKey(terms[k], t, q, n, docs);
    assert terms == rest + [terms[k]];
    forall x | x in rest
      ensures KeyOfTerm(x, q, n) != t
    {
      var i :| 0 <= i < k && rest[i] == x;
      assert x in terms;
      var u := TermKey(x, q, n, docs);
      KeysApart(x, terms[k], u, t, q, n, docs);
    }
  }

  /** What a score is, said over the texts. */
  lemma ScoreOverTexts(terms: seq<Term>, q: Text, n: nat, docs: seq<Document>, d: int, indexed: int, idf: Idf)
    requires n > 0 && GoodDocs(docs, 0) && 1 <= d <= |docs| && TermsOf(terms, q, n, docs) && InAll(terms, d)
    ensures Score(terms, d, indexed, idf) == KeyScores(docs, n, QueryKeys(q, n), d, indexed, idf)
  {
    hide TermOf, IsTerm, Apart, KeyScores, Score, GoodDocs, InAll, IsKept, Stream, KeysOfTerms, QueryKeys;
    ScoreOverKeys(terms, q, n, docs, d, indexed, idf);
    TermKeys(terms, q, n, docs);
  }

  lemma TermKeys(terms: seq<Term>, q: Text, n: nat, docs: seq<Document>)
    requires n > 0 && TermsOf(terms, q, n, docs)
    ensures KeysOfTerms(terms, q, n) == QueryKeys(q, n)
  {
    hide TermOf, IsTerm, Apart, KeyOfTerm, Stream;
    forall x | x in terms
      ensures KeyOfTerm(x, q, n) in QueryKeys(q, n)
    {
      var t := TermKey(x, q, n, docs);
      KeyOfKept(x, t, q, n, docs);
    }
    forall b | IsKept(q, n, b)
      ensures exists x :: x in terms && KeyOfTerm(x, q, n) == KeyOf(Stream(q, n)[b])
    {
      var x :| x in terms && TermOf(x, KeyOf(Stream(q, n)[b]), q, n, docs);
      TermHasKey(x, KeyOf(Stream(q, n)[b]), q, n, docs);
    }
  }

  lemma KeyOfKept(x: Term, t: Key, q: Text, n: nat, docs: seq<Document>)
    requires n > 0 && TermOf(x, t, q, n, docs)
    ensures exists b :: IsKept(q, n, b) && KeyOf(Stream(q, n)[b]) == t
  {
    hide Stream, KeyOf, IndexOf;
    var b := x.token.bases[0];
    assert b in x.token.bases;
    assert IsKept(q, n, b);
  }

  /** The hits over the stored lists are the documents that answer the query, key by key. */
  lemma HitsAreAnswers(terms: seq<Term>, q: Text, n: nat, docs: seq<Document>, phrase: bool, d: int)
    requires n > 0 && GoodDocs(docs, 0) && TermsOf(terms, q, n, docs) && terms != []
    ensures IsHit(terms, phrase, d) <==> 1 <= d <= |docs| && Answers(docs[d - 1].body, q, n, phrase, ByKey)
  {
    hide OccursAt, HoldsAll, TermsOf, InAll, PhraseAt, GoodDocs;
    if 1 <= d <= |docs| {
      var body := docs[d - 1].body;
      InAllMeans(terms, q, n, docs, d);
      if exists r :: OccursAt(body, q, n, ByKey, r) {
        var r :| OccursAt(body, q, n, ByKey, r);
        OccursMeansHolds(body, q, n, ByKey, r);
        PhraseMeans(terms, q, n, docs, d, r);
      }
      if InAll(terms, d) && exists r :: PhraseAt(terms, d, r) {
        var r :| PhraseAt(terms, d, r);
        PhraseMeans(terms, q, n, docs, d, r);
      }
    } else {
      OutOfRange(terms, q, n, docs, d);
    }
  }

  lemma OutOfRange(terms: seq<Term>, q: Text, n: nat, docs: seq<Document>, d: int)
    requires n > 0 && GoodDocs(docs, 0) && TermsOf(terms, q, n, docs) && terms != [] && !(1 <= d <= |docs|)
    ensures !InAll(terms, d)
  {
    hide IndexOf, PositionsIn, BasesOf, GoodDocs, KeyOf, IsKept;
    var x := terms[0];
    assert x in terms;
    var t :| TermOf(x, t, q, n, docs);
    IndexLookup(docs, n, t, d);
  }

  /**
   A piece of a text, cut out at token boundaries, occurs in the text: all its kept tokens stand
   there, shifted by the number of tokens before the piece.
   */
  lemma PieceOccurs(body: Text, o: nat, q: Text, n: nat, how: Comparison)
    requires n > 0 && CutOut(body, o, q)
    ensures OccursAt(body, q, n, how, CountStarts(body, o))
  {
    hide CountStarts, CutOut, StandsAt;
    OffsetInside(body, o, q);
    var r := CountStarts(body, o);
    forall b | IsKept(q, n, b)
      ensures StandsAt(body, q, n, how, r + b, b)
    {
      TokenOfPiece(body, o, q, n, how, b);
    }
  }

  lemma OffsetInside(text: Text, o: nat, q: Text)
    requires CutOut(text, o, q)
    ensures o + |q| <= |text|
  {
  }

  lemma TokenOfPiece(body: Text, o: nat, q: Text, n: nat, how: Comparison, b: int)
    requires n > 0 && CutOut(body, o, q) && IsKept(q, n, b)
    ensures StandsAt(body, q, n, how, CountStarts(body, o) + b, b)
  {
    StreamInside(body, o, q, n, b);
    hide Stream, CutOut, CountStarts, KeyOf;
  }
}
