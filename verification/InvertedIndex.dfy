/**
 The in-memory inverted index (wiser.h:22-30) as a map from token ids to entries, how one text
 fills it (token.c:189-237), and how two of them are merged (postings.c:560-581).
 */
module InvertedIndex {
  import opened Wrappers
  import opened PostingsCodec
  import opened Tokenizer
  import opened TokenKey
  import opened SimpleIndex
  import opened TokenTable
  import MergeSort
  import PostingsList

  datatype Entry = Entry(docsCount: int, positionsCount: int, postings: seq<Posting>)

  type Hash = map<int, Entry>

  /** The list of key `t`. */
  function Buffered(ids: map<Key, int>, h: Hash, t: Key): (ps: seq<Posting>)
  {
    if t in ids && ids[t] in h then h[ids[t]].postings else []
  }

  // ---------------------------------------------------------------------------
  // One text
  // ---------------------------------------------------------------------------

  /** Positions below `k` of the kept tokens whose id is `id`. */
  function IdPositions(ids: map<Key, int>, stream: seq<Text>, all: bool, n: nat, id: int, k: nat): (ps: seq<int>)
    requires k <= |stream|
  {
    if k == 0 then []
    else
      IdPositions(ids, stream, all, n, id, k - 1)
      + if Kept(stream, all, n, k - 1) && IdOf(ids, KeyOf(stream[k - 1])) == id then [k - 1] else []
  }

  /** The entry that the first `k` tokens of a text make for `id`. */
  function TextEntry(tb: Table, documentId: int, ps: seq<int>, id: int): (e: Entry)
  {
    var docs := if documentId != 0 then 1 else if id in tb.rows then tb.rows[id].docsCount else 0;
    Entry(docs, |ps|, [Posting(documentId, ps, |ps|)])
  }

  ghost predicate EntryOfText(tb: Table, h: Hash, stream: seq<Text>, documentId: int, n: nat, k: nat, id: int)
    requires k <= |stream|
  {
    var ps := IdPositions(tb.ids, stream, documentId != 0, n, id, k);
    (id in h <==> ps != []) && (id in h ==> h[id] == TextEntry(tb, documentId, ps, id))
  }

  /** `h` holds exactly the first `k` tokens of the text. */
  ghost predicate HashOfText(tb: Table, h: Hash, stream: seq<Text>, documentId: int, n: nat, k: nat)
    requires k <= |stream|
  {
    forall id :: EntryOfText(tb, h, stream, documentId, n, k, id)
  }

  /** token_to_postings_list once the token id is known. */
  function WithToken(h: Hash, documentId: int, id: int, tokenDocsCount: int, position: int): (r: Hash)
    requires id in h ==> h[id].postings != []
  {
    if id in h then
      var e := h[id];
      var pl := e.postings[0];
      h[id := Entry(e.docsCount, e.positionsCount + 1,
                    e.postings[0 := Posting(pl.documentId, pl.positions + [position], pl.positionsCount + 1)])]
    else
      h[id := Entry(if documentId != 0 then 1 else tokenDocsCount, 1, [Posting(documentId, [position], 1)])]
  }

  lemma EmptyHash(tb: Table, stream: seq<Text>, documentId: int, n: nat)
    ensures HashOfText(tb, map[], stream, documentId, n, 0)
  {
  }

  /** Adding the next token, whose id the table already knows. */
  lemma NextToken(tb: Table, h: Hash, stream: seq<Text>, documentId: int, n: nat, k: nat, id: int, count: int)
    requires k < |stream| && HashOfText(tb, h, stream, documentId, n, k)
    requires Kept(stream, documentId != 0, n, k) && id == IdOf(tb.ids, KeyOf(stream[k]))
    requires documentId == 0 ==> count == if id in tb.rows then tb.rows[id].docsCount else 0
    ensures id in h ==> h[id].postings != []
    ensures HashOfText(tb, WithToken(h, documentId, id, count, k), stream, documentId, n, k + 1)
  {
    hide IdPositions, EntryOfText, KeyOf;
    assert EntryOfText(tb, h, stream, documentId, n, k, id);
    assert id in h ==> h[id].postings != [] by { EntryHasPosting(tb, h, stream, documentId, n, k, id); }
    var h' := WithToken(h, documentId, id, count, k);
    var k1 := k + 1;
    forall id'
      ensures EntryOfText(tb, h', stream, documentId, n, k1, id')
    {
      assert EntryOfText(tb, h, stream, documentId, n, k, id');
      NextTokenAt(tb, h, stream, documentId, n, k, id, count, id');
    }
  }

  lemma EntryHasPosting(tb: Table, h: Hash, stream: seq<Text>, documentId: int, n: nat, k: nat, id: int)
    requires k <= |stream| && EntryOfText(tb, h, stream, documentId, n, k, id)
    ensures id in h ==> h[id].postings != []
  {
  }

  lemma NextTokenAt(tb: Table, h: Hash, stream: seq<Text>, documentId: int, n: nat, k: nat, id: int, count: int,
                    id': int)
    requires k < |stream| && EntryOfText(tb, h, stream, documentId, n, k, id')
    requires Kept(stream, documentId != 0, n, k) && id == IdOf(tb.ids, KeyOf(stream[k]))
    requires documentId == 0 ==> count == if id in tb.rows then tb.rows[id].docsCount else 0
    requires id in h ==> h[id].postings != []
    ensures EntryOfText(tb, WithToken(h, documentId, id, count, k), stream, documentId, n, k + 1, id')
  {
    hide IdPositions, KeyOf;
    IdPositionsStep(tb.ids, stream, documentId != 0, n, id', k);
    var ps := IdPositions(tb.ids, stream, documentId != 0, n, id', k);
    assert ps + [] == ps;
    assert [] + [k] == [k];
  }

  lemma IdPositionsStep(ids: map<Key, int>, stream: seq<Text>, all: bool, n: nat, id: int, k: nat)
    requires k < |stream|
    ensures IdPositions(ids, stream, all, n, id, k + 1)
            == IdPositions(ids, stream, all, n, id, k)
               + if Kept(stream, all, n, k) && IdOf(ids, KeyOf(stream[k])) == id then [k] else []
  {
  }

  /** A token that is left out changes nothing. */
  lemma SkippedToken(tb: Table, h: Hash, stream: seq<Text>, documentId: int, n: nat, k: nat)
    requires k < |stream| && HashOfText(tb, h, stream, documentId, n, k) && !Kept(stream, documentId != 0, n, k)
    ensures HashOfText(tb, h, stream, documentId, n, k + 1)
  {
    hide IdPositions, EntryOfText, KeyOf;
    var k1 := k + 1;
    forall id
      ensures EntryOfText(tb, h, stream, documentId, n, k1, id)
    {
      assert EntryOfText(tb, h, stream, documentId, n, k, id);
      SkippedTokenAt(tb, h, stream, documentId, n, k, id);
    }
  }

  lemma SkippedTokenAt(tb: Table, h: Hash, stream: seq<Text>, documentId: int, n: nat, k: nat, id: int)
    requires k < |stream| && EntryOfText(tb, h, stream, documentId, n, k, id) && !Kept(stream, documentId != 0, n, k)
    ensures EntryOfText(tb, h, stream, documentId, n, k + 1, id)
  {
    hide IdPositions, KeyOf;
    IdPositionsStep(tb.ids, stream, documentId != 0, n, id, k);
    var ps := IdPositions(tb.ids, stream, documentId != 0, n, id, k);
    assert ps + [] == ps;
  }

  /** Storing one more token does not disturb what earlier tokens made. */
  lemma {:induction false} InsertedKeepsPositions(tb: Table, t: Key, stream: seq<Text>, n: nat, id: int, k: nat)
    requires TableOk(tb) && k <= |stream| && forall j :: 0 <= j < k ==> KeyOf(stream[j]) in tb.ids
    ensures IdPositions(Inserted(tb, t).ids, stream, true, n, id, k) == IdPositions(tb.ids, stream, true, n, id, k)
    decreases k
  {
    hide TableOk, KeyOf;
    if k > 0 {
      InsertedKeepsPositions(tb, t, stream, n, id, k - 1);
    }
  }

  lemma InsertedKeepsHash(tb: Table, t: Key, h: Hash, stream: seq<Text>, documentId: int, n: nat, k: nat)
    requires TableOk(tb) && k <= |stream| && forall j :: 0 <= j < k ==> KeyOf(stream[j]) in tb.ids
    requires documentId != 0 && HashOfText(tb, h, stream, documentId, n, k)
    ensures HashOfText(Inserted(tb, t), h, stream, documentId, n, k)
  {
    hide IdPositions, TableOk, Inserted, KeyOf;
    forall id
      ensures EntryOfText(Inserted(tb, t), h, stream, documentId, n, k, id)
    {
      assert EntryOfText(tb, h, stream, documentId, n, k, id);
      InsertedKeepsPositions(tb, t, stream, n, id, k);
    }
  }

  /** In a document, the positions of an id are the occurrences of its key. */
  lemma {:induction false} IdPositionsAreOccurrences(tb: Table, stream: seq<Text>, n: nat, t: Key, k: nat)
    requires TableOk(tb) && k <= |stream| && t in tb.ids
    ensures IdPositions(tb.ids, stream, true, n, tb.ids[t], k) == Occurrences(stream, t, k)
    decreases k
  {
    hide TableOk, IdOf, KeyOf;
    if k > 0 {
      IdPositionsAreOccurrences(tb, stream, n, t, k - 1);
      KeyHasId(tb, KeyOf(stream[k - 1]), t);
    }
  }

  /** An id belongs to one key only. */
  lemma KeyHasId(tb: Table, u: Key, t: Key)
    requires TableOk(tb) && t in tb.ids
    ensures IdOf(tb.ids, u) == tb.ids[t] <==> u == t
  {
  }

  /** The index of one document holds, for every key, what the simple index says. */
  lemma HashOfDocument(tb: Table, h: Hash, d: Document, n: nat, t: Key)
    requires n > 0 && d.id != 0 && TableOk(tb)
    requires HashOfText(tb, h, Stream(d.body, n), d.id, n, |Stream(d.body, n)|)
    requires forall s :: s in Stream(d.body, n) ==> KeyOf(s) in tb.ids
    ensures Buffered(tb.ids, h, t) == DocPostings(d, n, t)
  {
    hide Occurrences, IdPositions, Stream, TableOk, KeyOf;
    var stream := Stream(d.body, n);
    assert t in tb.ids ==> EntryOfText(tb, h, stream, d.id, n, |stream|, tb.ids[t]);
    if t in tb.ids {
      IdPositionsAreOccurrences(tb, stream, n, t, |stream|);
      assert IdPositions(tb.ids, stream, true, n, tb.ids[t], |stream|) == PositionsIn(d.body, n, t);
    } else {
      OccurrencesAre(stream, t, |stream|);
      AbsentToken(stream, t, |stream|);
    }
  }

  /** The index of a document is empty when and only when the document has no tokens. */
  lemma HashOfDocumentEmpty(tb: Table, h: Hash, d: Document, n: nat)
    requires n > 0 && d.id != 0 && TableOk(tb)
    requires HashOfText(tb, h, Stream(d.body, n), d.id, n, |Stream(d.body, n)|)
    requires forall s :: s in Stream(d.body, n) ==> KeyOf(s) in tb.ids
    ensures h == map[] <==> Stream(d.body, n) == []
  {
    var stream := Stream(d.body, n);
    hide Stream, TableOk, IdPositions, KeyOf;
    if stream == [] {
      forall id
        ensures id !in h
      {
        assert EntryOfText(tb, h, stream, d.id, n, 0, id);
        NoPositions(tb.ids, stream, true, n, id);
      }
    } else {
      var t := KeyOf(stream[0]);
      assert stream[0] in stream;
      var id := tb.ids[t];
      assert EntryOfText(tb, h, stream, d.id, n, |stream|, id);
      IdPositionsAreOccurrences(tb, stream, n, t, |stream|);
      OccurrencesAre(stream, t, |stream|);
      assert 0 in Occurrences(stream, t, |stream|);
      assert id in h;
    }
  }

  lemma NoPositions(ids: map<Key, int>, stream: seq<Text>, all: bool, n: nat, id: int)
    ensures IdPositions(ids, stream, all, n, id, 0) == []
  {
  }

  lemma {:induction false} AbsentToken(stream: seq<Text>, t: Key, k: nat)
    requires k <= |stream| && forall s :: s in stream ==> KeyOf(s) != t
    ensures Occurrences(stream, t, k) == []
    decreases k
  {
    hide KeyOf;
    if k > 0 {
      assert stream[k - 1] in stream;
      AbsentToken(stream, t, k - 1);
    }
  }

  // ---------------------------------------------------------------------------
  // Merging two indexes
  // ---------------------------------------------------------------------------

  /** The count of positions of the whole entry is not added up, as in the source. */
  function MergedEntry(base: Entry, added: Entry): (e: Entry)
  {
    Entry(base.docsCount + added.docsCount, base.positionsCount, Merged(base.postings, added.postings))
  }

  function MergedHash(base: Hash, added: Hash): (r: Hash)
    ensures r.Keys == base.Keys + added.Keys
  {
    map id | id in base.Keys + added.Keys ::
      if id in base && id in added then MergedEntry(base[id], added[id])
      else if id in base then base[id] else added[id]
  }

  /** merge_inverted_index, visiting the entries of `added` in any order. */
  method MergeInvertedIndex(base: Hash, added: Hash) returns (r: Hash)
    ensures r == MergedHash(base, added)
    ensures forall id :: id in base && id in added ==>
              && r[id].docsCount == base[id].docsCount + added[id].docsCount
              && r[id].positionsCount == base[id].positionsCount
  {
    hide Merged;
    r := base;
    var left := added.Keys;
    while left != {}
      invariant left <= added.Keys
      invariant r == MergedHash(base, map id | id in added.Keys - left :: added[id])
      decreases left
    {
      ghost var some := HasElement(left);
      var id :| id in left;
      if id in r {
        r := r[id := MergedEntry(r[id], added[id])];
      } else {
        r := r[id := added[id]];
      }
      left := left - {id};
    }
    assert (map id | id in added.Keys - left :: added[id]) == added;
  }

  lemma MergedLists(ids: map<Key, int>, base: Hash, added: Hash, t: Key)
    ensures Buffered(ids, MergedHash(base, added), t) ==
            (if t in ids && ids[t] in base && ids[t] in added
             then Merged(Buffered(ids, base, t), Buffered(ids, added, t))
             else Buffered(ids, base, t) + Buffered(ids, added, t))
  {
    var a, b := Buffered(ids, base, t), Buffered(ids, added, t);
    assert [] + b == b && a + [] == a;
    if t in ids {
      var id := ids[t];
      assert id in MergedHash(base, added) <==> id in base || id in added;
    }
  }

  // ---------------------------------------------------------------------------
  // Batches in any order
  // ---------------------------------------------------------------------------

  /** The same lists with the same counts of documents; the counts of positions of whole entries are not compared. */
  ghost predicate SameLists(a: Hash, b: Hash)
  {
    && a.Keys == b.Keys
    && forall id :: id in a.Keys ==> a[id].docsCount == b[id].docsCount && a[id].postings == b[id].postings
  }

  function ListAt(h: Hash, id: int): (ps: seq<Posting>)
  {
    if id in h then h[id].postings else []
  }

  function DocsAt(h: Hash, id: int): (count: int)
  {
    if id in h then h[id].docsCount else 0
  }

  ghost predicate Ascends(h: Hash)
  {
    forall id :: PostingsList.AscendingIds(PostingId, ListAt(h, id))
  }

  /** No document has postings of one token in both. */
  ghost predicate ApartAt(a: Hash, b: Hash, id: int)
  {
    PostingsList.NoneShared(PostingId, ListAt(a, id), ListAt(b, id))
  }

  /** Batches merged one after the other, as text_to_postings_lists does with the write buffer. */
  function MergedAll(hs: seq<Hash>): (h: Hash)
  {
    if hs == [] then map[] else MergedHash(MergedAll(hs[..|hs| - 1]), hs[|hs| - 1])
  }

  /** All postings of a token, with their multiplicities, and all counts of its documents. */
  ghost function PostingsIn(hs: seq<Hash>, id: int): (m: multiset<Posting>)
  {
    if hs == [] then multiset{} else PostingsIn(hs[1..], id) + multiset(ListAt(hs[0], id))
  }

  ghost function DocsIn(hs: seq<Hash>, id: int): (count: int)
  {
    if hs == [] then 0 else DocsIn(hs[1..], id) + DocsAt(hs[0], id)
  }

  ghost predicate Batches(hs: seq<Hash>)
  {
    && (forall i :: 0 <= i < |hs| ==> Ascends(hs[i]))
    && (forall i, j, id :: 0 <= i < j < |hs| ==> ApartAt(hs[i], hs[j], id))
  }

  /** Every list is a single posting of document `d`. */
  ghost predicate OneDocument(h: Hash, d: int)
  {
    forall id :: id in h ==> |h[id].postings| == 1 && h[id].postings[0].documentId == d
  }

  lemma TextIsOneDocument(tb: Table, h: Hash, stream: seq<Text>, documentId: int, n: nat, k: nat)
    requires k <= |stream| && HashOfText(tb, h, stream, documentId, n, k)
    ensures OneDocument(h, documentId)
  {
    hide IdPositions;
    forall id | id in h
      ensures |h[id].postings| == 1 && h[id].postings[0].documentId == documentId
    {
      assert EntryOfText(tb, h, stream, documentId, n, k, id);
    }
  }

  /** The indexes of different documents can be merged in any order. */
  lemma DocumentsAreBatches(hs: seq<Hash>, ds: seq<int>)
    requires |hs| == |ds| && Distinct(ds) && forall i :: 0 <= i < |hs| ==> OneDocument(hs[i], ds[i])
    ensures Batches(hs)
  {
    forall i, j, id | 0 <= i < j < |hs|
      ensures ApartAt(hs[i], hs[j], id)
    {
      assert OneDocument(hs[i], ds[i]) && OneDocument(hs[j], ds[j]);
    }
  }

  lemma MergedAt(a: Hash, b: Hash, id: int)
    requires PostingsList.AscendingIds(PostingId, ListAt(a, id)) && PostingsList.AscendingIds(PostingId, ListAt(b, id))
    requires ApartAt(a, b, id)
    ensures var m := MergedHash(a, b);
            && PostingsList.AscendingIds(PostingId, ListAt(m, id))
            && multiset(ListAt(m, id)) == multiset(ListAt(a, id)) + multiset(ListAt(b, id))
            && DocsAt(m, id) == DocsAt(a, id) + DocsAt(b, id)
  {
    hide PostingsList.AscendingIds, PostingsList.NoneShared;
    PostingsList.MergeIsUnion(PostingId, ListAt(a, id), ListAt(b, id));
  }

  lemma {:induction false} LastPostings(hs: seq<Hash>, h: Hash, id: int)
    ensures PostingsIn(hs + [h], id) == PostingsIn(hs, id) + multiset(ListAt(h, id))
    ensures DocsIn(hs + [h], id) == DocsIn(hs, id) + DocsAt(h, id)
  {
    hide ListAt, DocsAt;
    if hs == [] {
      assert ([] + [h])[1..] == [];
    } else {
      LastPostings(hs[1..], h, id);
      assert (hs + [h])[1..] == hs[1..] + [h];
    }
  }

  /** Merging batches collects their postings and adds up their counts, in ascending lists. */
  lemma {:induction false} MergedAllAt(hs: seq<Hash>, id: int)
    requires Batches(hs)
    ensures var m := MergedAll(hs);
            && PostingsList.AscendingIds(PostingId, ListAt(m, id))
            && multiset(ListAt(m, id)) == PostingsIn(hs, id)
            && DocsAt(m, id) == DocsIn(hs, id)
            && (id in m <==> exists i :: 0 <= i < |hs| && id in hs[i])
  {
    if hs != [] {
      var k := |hs| - 1;
      var before, last := hs[..k], hs[k];
      assert hs == before + [last];
      MergedAllAt(before, id);
      LastPostings(before, last, id);
      assert Ascends(last);
      SharedNowhere(hs, id);
      hide PostingsList.AscendingIds, PostingsIn, DocsIn, MergedHash, Batches;
      MergedAt(MergedAll(before), last, id);
      LastKey(hs, id);
    }
  }

  lemma LastKey(hs: seq<Hash>, id: int)
    requires hs != []
    ensures var k := |hs| - 1;
            (exists i :: 0 <= i < |hs| && id in hs[i]) <==> id in hs[k] || exists i :: 0 <= i < k && id in hs[..k][i]
  {
    var k := |hs| - 1;
    if id !in hs[k] && exists i :: 0 <= i < |hs| && id in hs[i] {
      var i :| 0 <= i < |hs| && id in hs[i];
      assert hs[..k][i] == hs[i];
    }
  }

  lemma {:induction false} MemberOfBatch(hs: seq<Hash>, id: int, x: Posting)
    ensures x in PostingsIn(hs, id) <==> exists i :: 0 <= i < |hs| && x in ListAt(hs[i], id)
  {
    hide ListAt;
    if hs != [] {
      MemberOfBatch(hs[1..], id, x);
      assert hs == [hs[0]] + hs[1..];
      assert x in multiset(ListAt(hs[0], id)) <==> x in ListAt(hs[0], id);
    }
  }

  lemma SharedNowhere(hs: seq<Hash>, id: int)
    requires hs != [] && Batches(hs)
    requires multiset(ListAt(MergedAll(hs[..|hs| - 1]), id)) == PostingsIn(hs[..|hs| - 1], id)
    ensures ApartAt(MergedAll(hs[..|hs| - 1]), hs[|hs| - 1], id)
  {
    hide ListAt, PostingsIn, MergedAll;
    var k := |hs| - 1;
    var ps := ListAt(MergedAll(hs[..k]), id);
    forall x, y | x in ps && y in ListAt(hs[k], id)
      ensures PostingId(x) != PostingId(y)
    {
      assert x in multiset(ps);
      MemberOfBatch(hs[..k], id, x);
      var i :| 0 <= i < k && x in ListAt(hs[..k][i], id);
      assert ApartAt(hs[i], hs[k], id);
    }
  }

  /** Taking one batch out of the sequence takes its postings out of the sum. */
  lemma {:induction false} WithoutBatch(hs: seq<Hash>, j: nat, id: int)
    requires j < |hs|
    ensures PostingsIn(hs, id) == PostingsIn(hs[..j] + hs[j + 1..], id) + multiset(ListAt(hs[j], id))
    ensures DocsIn(hs, id) == DocsIn(hs[..j] + hs[j + 1..], id) + DocsAt(hs[j], id)
  {
    hide ListAt, DocsAt;
    if j == 0 {
      assert hs[..0] + hs[1..] == hs[1..];
    } else {
      WithoutBatch(hs[1..], j - 1, id);
      assert (hs[..j] + hs[j + 1..])[1..] == hs[1..][..j - 1] + hs[1..][j..];
    }
  }

  lemma {:induction false} SumsInAnyOrder(hs: seq<Hash>, hs': seq<Hash>, id: int)
    requires multiset(hs) == multiset(hs')
    ensures PostingsIn(hs, id) == PostingsIn(hs', id) && DocsIn(hs, id) == DocsIn(hs', id)
    decreases |hs|
  {
    hide ListAt, DocsAt;
    SameLength(hs, hs');
    if hs != [] {
      var j := FindFirst(hs, hs');
      SumsInAnyOrder(hs[1..], hs'[..j] + hs'[j + 1..], id);
      WithoutBatch(hs', j, id);
    }
  }

  /** Whatever the order in which batches of different documents are merged, the lists and their counts are the same. */
  lemma BatchesInAnyOrder(hs: seq<Hash>, hs': seq<Hash>)
    requires multiset(hs) == multiset(hs') && Batches(hs) && Batches(hs')
    ensures SameLists(MergedAll(hs), MergedAll(hs'))
  {
    hide MergedAll, Batches;
    forall id
      ensures var a, b := MergedAll(hs), MergedAll(hs');
              (id in a <==> id in b) && ListAt(a, id) == ListAt(b, id) && DocsAt(a, id) == DocsAt(b, id)
    {
      AnyOrderAt(hs, hs', id);
    }
    SameEverywhere(MergedAll(hs), MergedAll(hs'));
  }

  lemma SameEverywhere(a: Hash, b: Hash)
    requires forall id :: (id in a <==> id in b) && ListAt(a, id) == ListAt(b, id) && DocsAt(a, id) == DocsAt(b, id)
    ensures SameLists(a, b)
  {
    forall id
      ensures id in a.Keys <==> id in b.Keys
      ensures id in a.Keys ==> a[id].docsCount == b[id].docsCount && a[id].postings == b[id].postings
    {
      assert ListAt(a, id) == ListAt(b, id) && DocsAt(a, id) == DocsAt(b, id);
    }
  }

  lemma AnyOrderAt(hs: seq<Hash>, hs': seq<Hash>, id: int)
    requires multiset(hs) == multiset(hs') && Batches(hs) && Batches(hs')
    ensures var a, b := MergedAll(hs), MergedAll(hs');
            (id in a <==> id in b) && ListAt(a, id) == ListAt(b, id) && DocsAt(a, id) == DocsAt(b, id)
  {
    hide MergedAll, ListAt, DocsAt, PostingsIn, DocsIn, Batches;
    MergedAllAt(hs, id);
    MergedAllAt(hs', id);
    SumsInAnyOrder(hs, hs', id);
    PostingsList.AscendingIsUnique(PostingId, ListAt(MergedAll(hs), id), ListAt(MergedAll(hs'), id));
    SameKeys(hs, hs', id);
    SameKeys(hs', hs, id);
  }

  lemma SameKeys(hs: seq<Hash>, hs': seq<Hash>, id: int)
    requires multiset(hs) == multiset(hs')
    ensures (exists i :: 0 <= i < |hs| && id in hs[i]) ==> exists i :: 0 <= i < |hs'| && id in hs'[i]
  {
    MergeSort.SameElements(hs, hs');
    if i :| 0 <= i < |hs| && id in hs[i] {
      assert hs[i] in hs';
    }
  }
}
