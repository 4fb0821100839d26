/**
 The index that the engine is meant to hold, said directly: for every key, the documents in which a token with that
 key occurs and its positions there.
 */
module SimpleIndex {
  import opened Wrappers
  import opened Golomb
  import opened GapCode
  import opened PostingsCodec
  import opened Tokenizer
  import opened TokenKey
  import MergeSort
  import Utf
  import PostingsList

  datatype Document = Document(id: int, body: Text)

  /** The places below `k` where a token with key `t` stands. */
  function Occurrences(stream: seq<Text>, t: Key, k: nat): (ps: seq<int>)
    requires k <= |stream|
  {
    if k == 0 then [] else Occurrences(stream, t, k - 1) + if KeyOf(stream[k - 1]) == t then [k - 1] else []
  }

  lemma {:induction false} OccurrencesAre(stream: seq<Text>, t: Key, k: nat)
    requires k <= |stream|
    ensures var ps := Occurrences(stream, t, k);
            && (forall p :: p in ps <==> 0 <= p < k && KeyOf(stream[p]) == t)
            && Ascending(-1, ps) && Last(-1, ps) < k
    decreases k
  {
    hide Ascending, KeyOf;
    if k == 0 {
      AscendingNil(-1);
    } else {
      OccurrencesAre(stream, t, k - 1);
      var before := Occurrences(stream, t, k - 1);
      if KeyOf(stream[k - 1]) == t {
        AscendingSnoc(-1, before, k - 1);
      } else {
        assert before + [] == before;
      }
    }
  }

  lemma AscendingNil(prev: int)
    ensures Ascending(prev, [])
  {
  }

  function PositionsIn(body: Text, n: nat, t: Key): (ps: seq<int>)
    requires n > 0
  {
    Occurrences(Stream(body, n), t, |Stream(body, n)|)
  }

  /** What one document adds to the list of key `t`. */
  function DocPostings(d: Document, n: nat, t: Key): (ps: seq<Posting>)
    requires n > 0
  {
    var ps := PositionsIn(d.body, n, t);
    if ps == [] then [] else [Posting(d.id, ps, |ps|)]
  }

  /** The postings list of key `t` over all documents. */
  function IndexOf(docs: seq<Document>, n: nat, t: Key): (ps: seq<Posting>)
    requires n > 0
  {
    if docs == [] then []
    else IndexOf(docs[..|docs| - 1], n, t) + DocPostings(docs[|docs| - 1], n, t)
  }

  lemma {:induction false} IndexOfConcat(xs: seq<Document>, ys: seq<Document>, n: nat, t: Key)
    requires n > 0
    ensures IndexOf(xs + ys, n, t) == IndexOf(xs, n, t) + IndexOf(ys, n, t)
    decreases |ys|
  {
    hide DocPostings;
    if ys == [] {
      assert xs + ys == xs;
    } else {
      var k := |ys| - 1;
      IndexOfConcat(xs, ys[..k], n, t);
      assert (xs + ys)[..|xs| + k] == xs + ys[..k];
      Assoc(IndexOf(xs, n, t), IndexOf(ys[..k], n, t), DocPostings(ys[k], n, t));
    }
  }

  // ---------------------------------------------------------------------------
  // The lists are what the encoder expects
  // ---------------------------------------------------------------------------

  /** Consecutive ids after `from`, and bodies that can be encoded; both within what the Golomb parameters allow. */
  ghost predicate GoodDocs(docs: seq<Document>, from: nat)
  {
    && from + |docs| <= MAX_M
    && forall i :: 0 <= i < |docs| ==> docs[i].id == from + i + 1 && GoodBody(docs[i].body)
  }

  predicate GoodBody(body: Text)
  {
    |body| <= MAX_M && Utf.AllEncodable(body)
  }

  lemma {:induction false} CountStartsBound(text: Text, i: nat)
    requires i <= |text|
    ensures CountStarts(text, i) <= i
    decreases i
  {
    if i > 0 {
      CountStartsBound(text, i - 1);
    }
  }

  lemma PositionsGood(body: Text, n: nat, t: Key)
    requires n > 0 && GoodBody(body)
    ensures GoodPositions(PositionsIn(body, n, t))
  {
    hide Occurrences, IsStart, Stream, TokenEnd, KeyOf;
    var ps := PositionsIn(body, n, t);
    OccurrencesAre(Stream(body, n), t, |Stream(body, n)|);
    StreamClosedForm(body, n);
    CountStartsBound(body, |body|);
    LastBound(-1, ps);
    if ps != [] {
      MeanGapBound(Last(-1, ps) + 1, |ps|);
    }
  }

  lemma MeanGapBound(a: int, n: int)
    requires a >= 0 && n >= 1
    ensures a / n <= a
  {
  }

  /** Ids ascending and in range, no empty posting, never more postings than documents. */
  ghost predicate GoodIndexList(ps: seq<Posting>, from: nat, to: nat)
  {
    && Ascending(from, Ids(ps)) && Last(from, Ids(ps)) <= to
    && |ps| <= to - from
    && forall p :: p in ps ==> p.positions != [] && GoodPositions(p.positions) && p.positionsCount == |p.positions|
  }

  lemma {:induction false} IndexIsGood(docs: seq<Document>, from: nat, n: nat, t: Key)
    requires n > 0 && GoodDocs(docs, from)
    ensures GoodIndexList(IndexOf(docs, n, t), from, from + |docs|)
    decreases |docs|
  {
    hide PositionsIn, GoodPositions, Ascending, GoodIndexList, GoodBody;
    if docs == [] {
      EmptyIsGood(from);
    } else {
      var k := |docs| - 1;
      IndexIsGood(docs[..k], from, n, t);
      OneMoreDocument(IndexOf(docs[..k], n, t), from, docs[k], n, t);
    }
  }

  lemma EmptyIsGood(from: nat)
    ensures GoodIndexList([], from, from)
  {
  }

  lemma OneMoreDocument(ps: seq<Posting>, from: nat, d: Document, n: nat, t: Key)
    requires n > 0 && d.id - 1 >= from && GoodBody(d.body) && GoodIndexList(ps, from, d.id - 1)
    ensures GoodIndexList(ps + DocPostings(d, n, t), from, d.id)
  {
    hide PositionsIn, GoodPositions, Ascending, GoodBody;
    if PositionsIn(d.body, n, t) != [] {
      PositionsGood(d.body, n, t);
      AscendingSnoc(from, Ids(ps), d.id);
      assert Ids(ps + DocPostings(d, n, t)) == Ids(ps) + [d.id];
    } else {
      assert ps + [] == ps;
    }
  }

  /** Every list over good documents can be encoded. */
  lemma IndexIsEncodable(docs: seq<Document>, n: nat, t: Key)
    requires n > 0 && GoodDocs(docs, 0)
    ensures GoodPostings(IndexOf(docs, n, t)) && GoodCount(|docs|, IndexOf(docs, n, t))
    ensures forall p :: p in IndexOf(docs, n, t) ==> p.positions != []
  {
    hide GoodPositions, Ascending;
    IndexIsGood(docs, 0, n, t);
    var ps := IndexOf(docs, n, t);
    if ps != [] {
      MeanGapBound(|docs|, |ps|);
    }
  }

  // ---------------------------------------------------------------------------
  // Merging a later batch
  // ---------------------------------------------------------------------------

  function PostingId(p: Posting): int
  {
    p.documentId
  }

  /** merge_postings on the values of the two lists. */
  function Merged(a: seq<Posting>, b: seq<Posting>): (r: seq<Posting>)
  {
    MergeSort.Merge(PostingsList.LeqBy(PostingId), a, b)
  }

  lemma MergedLater(a: seq<Posting>, b: seq<Posting>, from: nat, mid: nat, to: nat)
    requires GoodIndexList(a, from, mid) && GoodIndexList(b, mid, to)
    ensures Merged(a, b) == a + b
  {
    hide GoodPositions, Ascending;
    AscendingOrder(from, Ids(a));
    AscendingOrder(mid, Ids(b));
    forall x, y | x in a && y in b
      ensures PostingId(x) < PostingId(y)
    {
      var i :| 0 <= i < |a| && a[i] == x;
      var j :| 0 <= j < |b| && b[j] == y;
      assert Ids(a)[i] <= Last(from, Ids(a)) && mid < Ids(b)[j];
    }
    PostingsList.MergeLater(PostingId, a, b);
  }
}
