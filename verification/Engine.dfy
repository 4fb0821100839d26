/**
 The indexing engine (wiser.c:19-83, token.c:189-293, postings.c:418-552): documents go through
 the tokeniser into a write buffer, which is merged into the stored lists when it is full.
 */
module Engine {
  import opened Wrappers
  import opened Golomb
  import opened PostingsCodec
  import opened PostingsStore
  import opened Tokenizer
  import opened TokenKey
  import opened SimpleIndex
  import opened TokenTable
  import opened InvertedIndex
  import Utf

  // ---------------------------------------------------------------------------
  // Storage and buffer against the simple index
  // ---------------------------------------------------------------------------

  /** Every stored list says what the first documents say, every buffered one what the others say. */
  ghost predicate ListsOk(how: CompressMethod, n: nat, tb: Table, buf: Hash, docs: seq<Document>, flushed: nat)
    requires n > 0 && flushed <= |docs|
  {
    && (forall t :: Stored(how, tb, t) == IndexOf(docs[..flushed], n, t))
    && (forall t :: Buffered(tb.ids, buf, t) == IndexOf(docs[flushed..], n, t))
  }

  ghost predicate BufferOk(tb: Table, buf: Hash)
  {
    forall id :: id in buf ==>
      && buf[id].docsCount == |buf[id].postings| > 0
      && exists t :: t in tb.ids && tb.ids[t] == id
  }

  class Env {
    const tokenLen: nat
    const compress: CompressMethod
    const threshold: int         // ii_buffer_update_threshold

    var titles: map<string, int> // the documents table: title to id
    var documentsCount: int      // SELECT COUNT(*) FROM documents
    var table: Table             // the tokens table

    var iiBuffer: Hash           // the write buffer; map[] is the source's NULL
    var iiBufferCount: int
    var indexedCount: int

    ghost var docs: seq<Document>  // every document ever added
    ghost var flushed: nat         // how many of them storage covers

    ghost predicate Valid()
      reads this
    {
      && tokenLen > 0
      && documentsCount == |docs| && GoodDocs(docs, 0)
      && flushed <= |docs| && (iiBuffer == map[] ==> flushed == |docs|)
      && TableOk(table) && RowsOk(compress, table)
      && ListsOk(compress, tokenLen, table, iiBuffer, docs, flushed)
      && BufferOk(table, iiBuffer)
    }

    constructor (tokenLen: nat, compress: CompressMethod, threshold: int)
      requires tokenLen > 0
      ensures Valid() && docs == [] && titles == map[]
      ensures this.tokenLen == tokenLen && this.compress == compress && this.threshold == threshold
    {
      this.tokenLen, this.compress, this.threshold := tokenLen, compress, threshold;
      titles, documentsCount, table := map[], 0, EmptyTable;
      iiBuffer, iiBufferCount, indexedCount := map[], 0, 0;
      docs, flushed := [], 0;
    }

    /** db_get_token_id1. */
    method GetTokenId(token: Key, insert: bool) returns (id: int, docsCount: int)
      requires TableOk(table)
      modifies this`table
      ensures table == if insert then Inserted(old(table), token) else old(table)
      ensures id == IdOf(table.ids, token)
      ensures docsCount == if id in table.rows then table.rows[id].docsCount else 0
    {
      if insert && token !in table.ids {
        table := Table(table.ids[token := table.next], table.next + 1, table.rows[table.next := Row(0, [])]);
      }
      if token in table.ids {
        id := table.ids[token];
        docsCount := table.rows[id].docsCount;
      } else {
        id, docsCount := 0, 0;
      }
    }

    /** token_to_postings_list; `token` is the C string whose digest is the key. */
    method TokenToPostingsList(documentId: int, token: Key, position: int, h: Hash) returns (h': Hash)
      requires TableOk(table)
      requires var id := IdOf((if documentId != 0 then Inserted(table, token) else table).ids, token);
               id in h ==> h[id].postings != []
      modifies this`table
      ensures table == if documentId != 0 then Inserted(old(table), token) else old(table)
      ensures var id := IdOf(table.ids, token);
              && (id in h ==> h[id].postings != [])
              && h' == WithToken(h, documentId, id, if id in table.rows then table.rows[id].docsCount else 0, position)
    {
      hide TableOk, Inserted;
      var id, tokenDocsCount := GetTokenId(token, documentId != 0);
      if id in h {
        var e := h[id];
        var pl := e.postings[0];
        pl := Posting(pl.documentId, pl.positions + [position], pl.positionsCount + 1);
        h' := h[id := Entry(e.docsCount, e.positionsCount + 1, e.postings[0 := pl])];
      } else {
        var pl := Posting(documentId, [position], 1);
        h' := h[id := Entry(if documentId != 0 then 1 else tokenDocsCount, 1, [pl])];
      }
    }

    /**
     The loop of text_to_postings_lists: the index of one text, `documentId` 0 for a query. None is the abort of the
     encoder, which happens exactly when some kept token cannot be encoded.
     */
    method CollectTokens(documentId: int, text: Text) returns (r: Option<Hash>)
      requires tokenLen > 0 && TableOk(table) && RowsOk(compress, table)
      modifies this`table
      ensures r.Some? <==> Hashable(Stream(text, tokenLen), documentId != 0, tokenLen, |Stream(text, tokenLen)|)
      ensures r.Some? ==>
                HashOfText(table, r.value, Stream(text, tokenLen), documentId, tokenLen, |Stream(text, tokenLen)|)
      ensures documentId == 0 ==> table == old(table)
      ensures documentId != 0 ==> Grown(compress, old(table), table)
      ensures documentId != 0 && r.Some? ==> forall s :: s in Stream(text, tokenLen) ==> KeyOf(s) in table.ids
    {
      hide Scan, TableOk, Inserted, HashOfText, Grown, RowsOk, SkipIgnored, TokenEnd, NextStart, KeyOf;
      hide Utf.AllEncodable;
      ghost var stream := Stream(text, tokenLen);
      var h: Hash := map[];
      var position := 0;
      EmptyHash(table, stream, documentId, tokenLen);
      GrownStart(compress, table);
      var len, start, next := NgramNext(text, 0, tokenLen);
      ghost var from := 0;
      while len != 0
        invariant from <= |text| && position <= |stream|
                  && Scan(text, from, tokenLen) == Scan(text, 0, tokenLen)[position..]
        invariant start == SkipIgnored(text, from)
        invariant len == 0 <==> start == |text|
        invariant start < |text| ==>
                    start + len == TokenEnd(text, start, tokenLen) && next == NextStart(text, start, tokenLen)
        invariant TableOk(table) && HashOfText(table, h, stream, documentId, tokenLen, position)
        invariant Hashable(stream, documentId != 0, tokenLen, position)
        invariant documentId == 0 ==> table == old(table)
        invariant documentId != 0 ==> Grown(compress, old(table), table) && table.next >= old(table.next)
        invariant documentId != 0 ==> forall j :: 0 <= j < position ==> KeyOf(stream[j]) in table.ids
        decreases |text| - from
      {
        ScanHead(text, from, tokenLen, position);
        var token := text[start..start + len];
        if len >= tokenLen || documentId != 0 {
          ghost var before := table;
          r := KeepToken(documentId, token, position, h, stream);
          if r.None? {
            return;
          }
          h := r.value;
          if documentId != 0 {
            GrowByToken(compress, old(table), before, KeyOf(token));
          }
        } else {
          SkippedToken(table, h, stream, documentId, tokenLen, position);
        }
        from := next;
        position := position + 1;
        len, start, next := NgramNext(text, next, tokenLen);
      }
      ScanDone(text, from, tokenLen);
      assert |stream| == position;
      r := Some(h);
    }

    /** One token of the loop is encoded, and goes into the index of the text. */
    method KeepToken(documentId: int, token: Text, position: int, h: Hash, ghost stream: seq<Text>)
        returns (r: Option<Hash>)
      requires tokenLen > 0 && TableOk(table)
      requires 0 <= position < |stream| && stream[position] == token
      requires Kept(stream, documentId != 0, tokenLen, position)
      requires HashOfText(table, h, stream, documentId, tokenLen, position)
      requires documentId != 0 ==> forall j :: 0 <= j < position ==> KeyOf(stream[j]) in table.ids
      modifies this`table
      ensures r.Some? <==> Utf.AllEncodable(token)
      ensures r.Some? ==> TableOk(table) && HashOfText(table, r.value, stream, documentId, tokenLen, position + 1)
      ensures table == if r.Some? && documentId != 0 then Inserted(old(table), KeyOf(token)) else old(table)
      ensures r.Some? && documentId != 0 ==> forall j :: 0 <= j <= position ==> KeyOf(stream[j]) in table.ids
    {
      hide TableOk, HashOfText, Grown, IdPositions, KeyOf, Utf.AllEncodable;
      var t8 := HashInput(token);
      if t8.None? {
        return None;
      }
      ghost var tb := if documentId != 0 then Inserted(table, KeyOf(token)) else table;
      ghost var id := IdOf(tb.ids, KeyOf(token));
      if documentId != 0 {
        InsertedOk(table, KeyOf(token));
        InsertedKeepsHash(table, KeyOf(token), h, stream, documentId, tokenLen, position);
      }
      NextToken(tb, h, stream, documentId, tokenLen, position, id, if id in tb.rows then tb.rows[id].docsCount else 0);
      var h' := TokenToPostingsList(documentId, t8.value, position, h);
      r := Some(h');
    }

    /** fetch_postings: the length check of the source never fails. */
    method FetchPostings(tokenId: int) returns (rc: int, ps: seq<Posting>, len: int)
      requires RowsOk(compress, table)
      ensures rc == 0 && len == |ps|
      ensures ps == if tokenId in table.rows then RowList(compress, table.rows[tokenId]) else []
    {
      hide FormRead;
      rc := 0;
      if tokenId in table.rows && table.rows[tokenId].bytes != [] {
        assert RowOk(compress, table.rows[tokenId]);
        ps := DecodePostings(compress, table.rows[tokenId].bytes);
        len := |ps|;
        if table.rows[tokenId].docsCount != len {
          rc := -1;
        }
      } else {
        ps, len := [], 0;
      }
    }

    /** update_postings: one entry of the buffer goes into storage. */
    method UpdatePostings(tokenId: int, e: Entry)
      requires TableOk(table) && RowsOk(compress, table) && tokenId in table.rows
      requires var ps := NewList(RowList(compress, table.rows[tokenId]), e.postings);
               && GoodPostings(ps) && GoodCount(documentsCount, ps) && ps != []
               && (forall p :: p in ps ==> p.positions != [])
               && e.docsCount == |e.postings| && |ps| == |RowList(compress, table.rows[tokenId])| + |e.postings|
      modifies this`table
      ensures RowsOk(compress, table) && TableOk(table)
      ensures tokenId in table.rows && table == Updated(old(table), tokenId, table.rows[tokenId])
      ensures RowList(compress, table.rows[tokenId]) == NewList(old(RowList(compress, table.rows[tokenId])), e.postings)
      ensures var ps, bytes := RowList(compress, table.rows[tokenId]), table.rows[tokenId].bytes;
              match compress
              case CompressNone => |bytes| == 4 * CountInts(ps)
              case CompressGolomb => GapStored(documentsCount, |ps|, bytes)
    {
      hide FormRead, GoodPostings, GoodCount, Merged, GapStored, CountInts;
      var rc, old_, oldLen := FetchPostings(tokenId);
      if rc == 0 {
        var ps, docsCount := e.postings, e.docsCount;
        if oldLen != 0 {
          ps := Merged(old_, ps);
          docsCount := docsCount + oldLen;
        }
        var bytes := EncodePostings(compress, documentsCount, ps);
        table := table.(rows := table.rows[tokenId := Row(docsCount, bytes)]);
      }
    }

    /** The flush loop of add_document, visiting the buffer in any order. */
    method Flush()
      requires Valid()
      modifies this
      ensures Valid() && iiBuffer == map[] && iiBufferCount == 0
      ensures docs == old(docs) && titles == old(titles) && indexedCount == old(indexedCount) && flushed == |docs|
    {
      hide ListsOk, BufferOk, RowsOk, GoodDocs, TableOk, NewList, FlushedSoFar;
      ghost var tb := table;
      ghost var buf := iiBuffer;
      var left := iiBuffer.Keys;
      FlushStart(compress, tb, buf);
      while left != {}
        invariant left <= buf.Keys && iiBuffer == buf
        invariant FlushedSoFar(compress, tb, table, buf, left)
        invariant docs == old(docs) && flushed == old(flushed) && documentsCount == |docs|
        invariant titles == old(titles) && indexedCount == old(indexedCount)
        decreases left
      {
        ghost var some := HasElement(left);
        var tokenId :| tokenId in left;
        FlushReady(compress, tokenLen, tb, table, buf, docs, flushed, left, tokenId);
        ghost var before := table;
        UpdatePostings(tokenId, iiBuffer[tokenId]);
        FlushStep(compress, tb, before, table, buf, left, tokenId);
        left := left - {tokenId};
      }
      FlushDone(compress, tokenLen, tb, table, buf, docs, flushed);
      iiBuffer := map[];
      iiBufferCount := 0;
      flushed := |docs|;
      EmptyBufferOk(table);
    }

    /** text_to_postings_lists into the write buffer; not `ok` is the abort of the encoder. */
    method TextToPostingsLists(documentId: int, text: Text) returns (ok: bool, ghost h: Hash)
      requires tokenLen > 0 && TableOk(table) && RowsOk(compress, table) && documentId != 0
      modifies this`table, this`iiBuffer
      ensures ok <==> Utf.AllEncodable(text)
      ensures ok ==> HashOfText(table, h, Stream(text, tokenLen), documentId, tokenLen, |Stream(text, tokenLen)|)
      ensures Grown(compress, old(table), table)
      ensures ok ==> forall s :: s in Stream(text, tokenLen) ==> KeyOf(s) in table.ids
      ensures iiBuffer == if ok then NextBuffer(old(iiBuffer), h) else old(iiBuffer)
    {
      hide TableOk, RowsOk, HashOfText, Grown, MergedHash, Stream, KeyOf, Hashable, Utf.AllEncodable;
      var bufferPostings := CollectTokens(documentId, text);
      BodyHashable(text, tokenLen);
      if bufferPostings.None? {
        return false, map[];
      }
      ok, h := true, bufferPostings.value;
      if iiBuffer != map[] {
        iiBuffer := MergeInvertedIndex(iiBuffer, bufferPostings.value);
      } else {
        iiBuffer := bufferPostings.value;
      }
    }

    /**
     add_document, with the body already decoded. It dies, not `ok`, exactly when some character of the body cannot
     be encoded; the document is in the documents table then, but nothing is buffered or flushed. Otherwise, storage
     and buffer together are the simple index of all documents so far. The buffer is written out when it holds
     something and the threshold is reached or there is no title, and otherwise storage covers no more than before.
     */
    method AddDocument(title: Option<string>, body: Option<Text>) returns (ok: bool)
      requires Valid()
      requires title.Some? && body.Some? ==> title.value !in titles && |body.value| <= MAX_M && |docs| < MAX_M
      modifies this
      ensures ok <==> (title.Some? && body.Some? ==> Utf.AllEncodable(body.value))
      ensures ok ==> Valid()
      ensures docs == old(docs) +
                if ok && title.Some? && body.Some? then [Document(|old(docs)| + 1, body.value)] else []
      ensures titles == if title.Some? && body.Some? then old(titles)[title.value := |old(docs)| + 1] else old(titles)
      ensures indexedCount == old(indexedCount) + if ok && title.Some? && body.Some? then 1 else 0
      ensures !ok ==> Grown(compress, old(table), table) && iiBuffer == old(iiBuffer)
      ensures !ok ==> iiBufferCount == old(iiBufferCount) && flushed == old(flushed)
      ensures ok ==>
                var added := title.Some? && body.Some?;
                var waiting := old(iiBuffer) != map[] || (added && Stream(body.value, tokenLen) != []);
                var count := old(iiBufferCount) + if added then 1 else 0;
                if waiting && (count >= threshold || title.None?)
                then iiBuffer == map[] && iiBufferCount == 0 && flushed == |docs|
                else (iiBuffer != map[] <==> waiting) && iiBufferCount == count
                     && flushed == if waiting then old(flushed) else |docs|
    {
      hide ListsOk, BufferOk, RowsOk, GoodDocs, TableOk, Stream, Grown, Utf.AllEncodable;
      ok := true;
      if title.Some? && body.Some? {
        ok := StoreDocument(title.value, body.value);
        if !ok {
          return;
        }
      }
      if iiBuffer != map[] && (iiBufferCount >= threshold || title.None?) {
        Flush();
      }
    }

    /** The first half of add_document. */
    method StoreDocument(title: string, body: Text) returns (ok: bool)
      requires Valid() && title !in titles && |body| <= MAX_M && |docs| < MAX_M
      modifies this
      ensures ok <==> Utf.AllEncodable(body)
      ensures titles == old(titles)[title := |old(docs)| + 1]
      ensures !ok ==> docs == old(docs) && flushed == old(flushed) && Grown(compress, old(table), table)
      ensures !ok ==> iiBuffer == old(iiBuffer) && iiBufferCount == old(iiBufferCount)
      ensures !ok ==> indexedCount == old(indexedCount)
      ensures ok ==> Valid() && docs == old(docs) + [Document(|old(docs)| + 1, body)]
      ensures ok ==> iiBufferCount == old(iiBufferCount) + 1 && indexedCount == old(indexedCount) + 1
      ensures ok ==> (iiBuffer != map[] <==> old(iiBuffer) != map[] || Stream(body, tokenLen) != [])
      ensures ok ==> flushed == if iiBuffer == map[] then |docs| else old(flushed)
    {
      hide ListsOk, BufferOk, RowsOk, GoodDocs, TableOk, HashOfText, Grown, Stream, NextBuffer, GoodBody, KeyOf;
      hide Utf.AllEncodable;
      ghost var tb, buf := table, iiBuffer;
      titles := titles[title := documentsCount + 1];
      documentsCount := documentsCount + 1;
      var documentId := titles[title];
      ghost var d := Document(documentId, body);
      ghost var h;
      ok, h := TextToPostingsLists(documentId, body);
      if !ok {
        return;
      }
      assert GoodBody(body) by { BodyIsGood(body); }
      AddedOk(compress, tokenLen, tb, table, buf, h, docs, flushed, d);
      HashOfDocumentEmpty(table, h, d, tokenLen);
      NextBufferFilled(buf, h);
      iiBufferCount := iiBufferCount + 1;
      indexedCount := indexedCount + 1;
      docs := docs + [d];
      if iiBuffer == map[] {
        EmptyBufferCoversAll(compress, tokenLen, table, docs, flushed);
        flushed := |docs|;
      }
    }
  }

  /**
   The refinement, for every token at every point of a run: the stored list merged with the buffered one is the
   simple index of all documents added so far, and can be encoded.
   */
  lemma StorageAndBuffer(env: Env, t: Key)
    requires env.Valid()
    ensures var ps := Merged(Stored(env.compress, env.table, t), Buffered(env.table.ids, env.iiBuffer, t));
            && ps == IndexOf(env.docs, env.tokenLen, t)
            && GoodPostings(ps) && GoodCount(|env.docs|, ps) && (forall p :: p in ps ==> p.positions != [])
  {
    var n, docs, flushed := env.tokenLen, env.docs, env.flushed;
    SplitIndex(docs, flushed, n, t);
    IndexIsEncodable(docs, n, t);
  }

  /** The index of all documents is that of the first ones merged with that of the others. */
  lemma SplitIndex(docs: seq<Document>, flushed: nat, n: nat, t: Key)
    requires n > 0 && flushed <= |docs| && GoodDocs(docs, 0)
    ensures Merged(IndexOf(docs[..flushed], n, t), IndexOf(docs[flushed..], n, t)) == IndexOf(docs, n, t)
  {
    hide IndexOf, Merged, GoodIndexList;
    assert docs == docs[..flushed] + docs[flushed..];
    IndexOfConcat(docs[..flushed], docs[flushed..], n, t);
    assert GoodDocs(docs[..flushed], 0) && GoodDocs(docs[flushed..], flushed);
    IndexIsGood(docs[..flushed], 0, n, t);
    IndexIsGood(docs[flushed..], flushed, n, t);
    MergedLater(IndexOf(docs[..flushed], n, t), IndexOf(docs[flushed..], n, t), 0, flushed, |docs|);
  }

  /** The list that update_postings writes. */
  function NewList(stored: seq<Posting>, added: seq<Posting>): (ps: seq<Posting>)
  {
    if stored == [] then added else Merged(stored, added)
  }

  /** For a buffered token, storing its entry gives the list over all documents. */
  lemma FlushedList(how: CompressMethod, n: nat, tb: Table, buf: Hash, docs: seq<Document>, flushed: nat, t: Key)
    requires n > 0 && flushed <= |docs| && GoodDocs(docs, 0) && TableOk(tb)
    requires ListsOk(how, n, tb, buf, docs, flushed) && BufferOk(tb, buf)
    requires t in tb.ids && tb.ids[t] in buf
    ensures var ps := NewList(Stored(how, tb, t), buf[tb.ids[t]].postings);
            && ps == IndexOf(docs, n, t) && ps != []
            && GoodPostings(ps) && GoodCount(|docs|, ps) && (forall p :: p in ps ==> p.positions != [])
            && |ps| == |Stored(how, tb, t)| + |buf[tb.ids[t]].postings|
  {
    hide GoodPostings, GoodCount, Merged, IndexOf, Stored, GoodDocs, TableOk;
    var stored, added := IndexOf(docs[..flushed], n, t), IndexOf(docs[flushed..], n, t);
    SplitIndex(docs, flushed, n, t);
    AddedIndex(docs, flushed, n, t);
    IndexIsEncodable(docs, n, t);
    assert Stored(how, tb, t) == stored;
    assert Buffered(tb.ids, buf, t) == added && buf[tb.ids[t]].postings == added;
    BufferedEntry(tb, buf, tb.ids[t]);
    assert [] + added == added;
    assert NewList(stored, added) == IndexOf(docs, n, t);
  }

  lemma BufferedEntry(tb: Table, buf: Hash, id: int)
    requires BufferOk(tb, buf) && id in buf
    ensures buf[id].docsCount == |buf[id].postings| > 0
  {
  }

  lemma AddedIndex(docs: seq<Document>, flushed: nat, n: nat, t: Key)
    requires n > 0 && flushed <= |docs|
    ensures IndexOf(docs, n, t) == IndexOf(docs[..flushed], n, t) + IndexOf(docs[flushed..], n, t)
  {
    hide IndexOf;
    assert docs == docs[..flushed] + docs[flushed..];
    IndexOfConcat(docs[..flushed], docs[flushed..], n, t);
  }

  // ---------------------------------------------------------------------------
  // The flush loop
  // ---------------------------------------------------------------------------

  /** Rows of visited tokens hold their new lists, all other rows are as before. */
  ghost predicate FlushedSoFar(how: CompressMethod, tb0: Table, tb: Table, buf: Hash, left: set<int>)
  {
    && tb.ids == tb0.ids && TableOk(tb) && RowsOk(how, tb)
    && forall id :: id in tb0.rows ==>
         && id in tb.rows
         && RowList(how, tb.rows[id]) ==
            (if id in buf && id !in left then NewList(RowList(how, tb0.rows[id]), buf[id].postings)
             else RowList(how, tb0.rows[id]))
  }

  lemma FlushStart(how: CompressMethod, tb: Table, buf: Hash)
    requires TableOk(tb) && RowsOk(how, tb)
    ensures FlushedSoFar(how, tb, tb, buf, buf.Keys)
  {
    hide RowList, TableOk, RowsOk;
  }

  /** The next entry can be stored. */
  lemma FlushReady(how: CompressMethod, n: nat, tb0: Table, tb: Table, buf: Hash, docs: seq<Document>, flushed: nat,
                   left: set<int>, id: int)
    requires n > 0 && flushed <= |docs| && GoodDocs(docs, 0) && TableOk(tb0)
    requires ListsOk(how, n, tb0, buf, docs, flushed) && BufferOk(tb0, buf)
    requires FlushedSoFar(how, tb0, tb, buf, left) && id in left && left <= buf.Keys
    ensures TableOk(tb) && RowsOk(how, tb) && id in tb.rows
    ensures var ps := NewList(RowList(how, tb.rows[id]), buf[id].postings);
            && GoodPostings(ps) && GoodCount(|docs|, ps) && ps != []
            && (forall p :: p in ps ==> p.positions != [])
            && buf[id].docsCount == |buf[id].postings| && |ps| == |RowList(how, tb.rows[id])| + |buf[id].postings|
  {
    hide RowList, GoodPostings, GoodCount, NewList, ListsOk, RowsOk, GoodDocs;
    assert id in buf;
    var t :| t in tb0.ids && tb0.ids[t] == id;
    FlushedList(how, n, tb0, buf, docs, flushed, t);
  }

  lemma FlushStep(how: CompressMethod, tb0: Table, tb: Table, tb': Table, buf: Hash, left: set<int>, id: int)
    requires FlushedSoFar(how, tb0, tb, buf, left) && id in left && left <= buf.Keys
    requires id in tb.rows && id in tb'.rows && tb' == Updated(tb, id, tb'.rows[id])
    requires TableOk(tb') && RowsOk(how, tb')
    requires RowList(how, tb'.rows[id]) == NewList(RowList(how, tb.rows[id]), buf[id].postings)
    ensures FlushedSoFar(how, tb0, tb', buf, left - {id})
  {
    hide RowList, NewList, TableOk, RowsOk;
  }

  lemma FlushDone(how: CompressMethod, n: nat, tb0: Table, tb: Table, buf: Hash, docs: seq<Document>, flushed: nat)
    requires n > 0 && flushed <= |docs| && GoodDocs(docs, 0) && TableOk(tb0)
    requires ListsOk(how, n, tb0, buf, docs, flushed) && BufferOk(tb0, buf)
    requires FlushedSoFar(how, tb0, tb, buf, {})
    ensures TableOk(tb) && RowsOk(how, tb) && ListsOk(how, n, tb, map[], docs, |docs|)
  {
    hide RowList, NewList, RowsOk, GoodDocs, IndexOf, BufferOk, GoodPostings, GoodCount;
    assert docs[..|docs|] == docs && docs[|docs|..] == [];
    NoDocuments(n);
    forall t
      ensures Stored(how, tb, t) == IndexOf(docs, n, t)
    {
      if t in tb0.ids && tb0.ids[t] in buf {
        FlushedList(how, n, tb0, buf, docs, flushed, t);
      } else {
        UnbufferedList(how, n, tb0, buf, docs, flushed, t);
      }
    }
  }

  lemma NoDocuments(n: nat)
    requires n > 0
    ensures forall t :: IndexOf([], n, t) == []
  {
  }

  /** A token without a buffered entry is already complete in storage. */
  lemma UnbufferedList(how: CompressMethod, n: nat, tb: Table, buf: Hash, docs: seq<Document>, flushed: nat, t: Key)
    requires n > 0 && flushed <= |docs| && ListsOk(how, n, tb, buf, docs, flushed)
    requires !(t in tb.ids && tb.ids[t] in buf)
    ensures Stored(how, tb, t) == IndexOf(docs, n, t)
  {
    hide RowList, IndexOf, Stored;
    AddedIndex(docs, flushed, n, t);
    assert Buffered(tb.ids, buf, t) == [];
  }

  lemma EmptyBufferOk(tb: Table)
    ensures BufferOk(tb, map[])
  {
  }

  lemma EmptyBufferCoversAll(how: CompressMethod, n: nat, tb: Table, docs: seq<Document>, flushed: nat)
    requires n > 0 && flushed <= |docs| && ListsOk(how, n, tb, map[], docs, flushed)
    ensures ListsOk(how, n, tb, map[], docs, |docs|)
  {
    hide RowList, IndexOf, Stored;
    assert docs[..|docs|] == docs && docs[|docs|..] == [];
    NoDocuments(n);
    forall t
      ensures Stored(how, tb, t) == IndexOf(docs, n, t)
    {
      UnbufferedList(how, n, tb, map[], docs, flushed, t);
    }
  }

  // ---------------------------------------------------------------------------
  // One more document
  // ---------------------------------------------------------------------------

  /** The write buffer after a document has been collected. */
  function NextBuffer(buf: Hash, h: Hash): (r: Hash)
  {
    if buf == map[] then h else MergedHash(buf, h)
  }

  lemma NextBufferFilled(buf: Hash, h: Hash)
    ensures NextBuffer(buf, h) != map[] <==> buf != map[] || h != map[]
  {
    hide MergedHash;
    if buf != map[] {
      var some := HasElement(buf.Keys);
      assert some in MergedHash(buf, h).Keys;
    }
  }

  lemma BodyIsGood(body: Text)
    requires |body| <= MAX_M && Utf.AllEncodable(body)
    ensures GoodBody(body)
  {
    hide Utf.AllEncodable;
  }

  lemma AddedOk(how: CompressMethod, n: nat, tb: Table, tb': Table, buf: Hash, h: Hash, docs: seq<Document>,
                flushed: nat, d: Document)
    requires n > 0 && flushed <= |docs| && GoodDocs(docs, 0) && |docs| < MAX_M && TableOk(tb) && RowsOk(how, tb)
    requires ListsOk(how, n, tb, buf, docs, flushed) && BufferOk(tb, buf)
    requires d.id == |docs| + 1 && GoodBody(d.body)
    requires HashOfText(tb', h, Stream(d.body, n), d.id, n, |Stream(d.body, n)|) && Grown(how, tb, tb')
    requires forall s :: s in Stream(d.body, n) ==> KeyOf(s) in tb'.ids
    ensures TableOk(tb') && RowsOk(how, tb') && GoodDocs(docs + [d], 0)
    ensures ListsOk(how, n, tb', NextBuffer(buf, h), docs + [d], flushed) && BufferOk(tb', NextBuffer(buf, h))
  {
    hide Stored, Buffered, IndexOf, RowsOk, TableOk, HashOfText, BufferOk, NextBuffer;
    var all := docs + [d];
    assert all[..flushed] == docs[..flushed] && all[flushed..] == docs[flushed..] + [d];
    forall t
      ensures Buffered(tb'.ids, NextBuffer(buf, h), t) == IndexOf(all[flushed..], n, t)
    {
      NextBufferedList(how, n, tb, tb', buf, h, docs, flushed, d, t);
    }
    NextBufferOk(how, n, tb, tb', buf, h, d);
  }

  lemma OldBufferedList(how: CompressMethod, tb: Table, tb': Table, buf: Hash, t: Key)
    requires TableOk(tb) && Grown(how, tb, tb') && BufferOk(tb, buf)
    ensures Buffered(tb'.ids, buf, t) == Buffered(tb.ids, buf, t)
  {
    hide Stored, RowsOk;
  }

  lemma NextBufferedList(how: CompressMethod, n: nat, tb: Table, tb': Table, buf: Hash, h: Hash, docs: seq<Document>,
                         flushed: nat, d: Document, t: Key)
    requires n > 0 && flushed <= |docs| && GoodDocs(docs, 0) && TableOk(tb)
    requires ListsOk(how, n, tb, buf, docs, flushed) && BufferOk(tb, buf)
    requires d.id == |docs| + 1 && GoodBody(d.body) && |docs| < MAX_M
    requires HashOfText(tb', h, Stream(d.body, n), d.id, n, |Stream(d.body, n)|) && Grown(how, tb, tb')
    requires forall s :: s in Stream(d.body, n) ==> KeyOf(s) in tb'.ids
    ensures Buffered(tb'.ids, NextBuffer(buf, h), t) == IndexOf(docs[flushed..] + [d], n, t)
  {
    hide Stored, DocPostings, HashOfText, BufferOk, GoodDocs, TableOk, Merged, MergedHash, RowsOk;
    OldBufferedList(how, tb, tb', buf, t);
    assert TableOk(tb');
    HashOfDocument(tb', h, d, n, t);
    var ys := docs[flushed..];
    SingleDocument(d, n, t);
    IndexOfConcat(ys, [d], n, t);
    var xs, add := IndexOf(ys, n, t), IndexOf([d], n, t);
    assert [] + add == add && xs + [] == xs;
    MergedLists(tb'.ids, buf, h, t);
    assert GoodDocs(ys, flushed) && GoodDocs([d], |docs|) by { SplitDocs(docs, flushed, d); }
    IndexIsGood(ys, flushed, n, t);
    IndexIsGood([d], |docs|, n, t);
    MergedLater(xs, add, flushed, |docs|, |docs| + 1);
  }

  lemma SingleDocument(d: Document, n: nat, t: Key)
    requires n > 0
    ensures IndexOf([d], n, t) == DocPostings(d, n, t)
  {
    hide DocPostings;
    assert [d][..0] == [];
    assert IndexOf([], n, t) == [];
  }

  lemma SplitDocs(docs: seq<Document>, flushed: nat, d: Document)
    requires flushed <= |docs| && GoodDocs(docs, 0) && d.id == |docs| + 1 && GoodBody(d.body) && |docs| < MAX_M
    ensures GoodDocs(docs[flushed..], flushed) && GoodDocs([d], |docs|)
  {
  }

  lemma NextBufferOk(how: CompressMethod, n: nat, tb: Table, tb': Table, buf: Hash, h: Hash, d: Document)
    requires n > 0 && Grown(how, tb, tb') && BufferOk(tb, buf) && d.id != 0
    requires HashOfText(tb', h, Stream(d.body, n), d.id, n, |Stream(d.body, n)|)
    requires forall s :: s in Stream(d.body, n) ==> KeyOf(s) in tb'.ids
    ensures BufferOk(tb', NextBuffer(buf, h))
  {
    hide Stored, HashOfText, TableOk, RowsOk, Merged;
    forall id | id in h
      ensures h[id].docsCount == |h[id].postings| == 1 && exists t :: t in tb'.ids && tb'.ids[t] == id
    {
      HashKeyIsToken(tb', h, Stream(d.body, n), d.id, n, |Stream(d.body, n)|, id);
    }
    forall id | id in buf
      ensures exists t :: t in tb'.ids && tb'.ids[t] == id
    {
      var t :| t in tb.ids && tb.ids[t] == id;
    }
    forall id | id in NextBuffer(buf, h)
      ensures NextBuffer(buf, h)[id].docsCount == |NextBuffer(buf, h)[id].postings| > 0
    {
      if id in buf && id in h {
        MergedLength(buf[id].postings, h[id].postings);
      }
    }
  }

  lemma MergedLength(a: seq<Posting>, b: seq<Posting>)
    ensures |Merged(a, b)| == |a| + |b|
  {
  }

  lemma HashKeyIsToken(tb: Table, h: Hash, stream: seq<Text>, documentId: int, n: nat, k: nat, id: int)
    requires k <= |stream| && documentId != 0 && HashOfText(tb, h, stream, documentId, n, k) && id in h
    requires forall s :: s in stream ==> KeyOf(s) in tb.ids
    ensures h[id].docsCount == |h[id].postings| == 1 && exists t :: t in tb.ids && tb.ids[t] == id
  {
    hide IdPositions;
    assert EntryOfText(tb, h, stream, documentId, n, k, id);
    var j := SomePosition(tb.ids, stream, true, n, id, k);
    assert stream[j] in stream;
  }

  lemma {:induction false} SomePosition(ids: map<Key, int>, stream: seq<Text>, all: bool, n: nat, id: int, k: nat)
      returns (j: nat)
    requires k <= |stream| && IdPositions(ids, stream, all, n, id, k) != []
    ensures j < k && Kept(stream, all, n, j) && IdOf(ids, KeyOf(stream[j])) == id
    decreases k
  {
    if Kept(stream, all, n, k - 1) && IdOf(ids, KeyOf(stream[k - 1])) == id {
      j := k - 1;
    } else {
      j := SomePosition(ids, stream, all, n, id, k - 1);
    }
  }

  lemma GrownStart(how: CompressMethod, tb: Table)
    requires TableOk(tb) && RowsOk(how, tb)
    ensures Grown(how, tb, tb)
  {
    hide Stored;
  }

  /** The next token of the scan, when there is one. */
  lemma ScanHead(text: Text, from: nat, n: nat, k: nat)
    requires n > 0 && from <= |text| && k <= |Scan(text, 0, n)| && Scan(text, from, n) == Scan(text, 0, n)[k..]
    requires SkipIgnored(text, from) < |text|
    ensures var s := SkipIgnored(text, from);
            && k < |Stream(text, n)| && Stream(text, n)[k] == text[s..TokenEnd(text, s, n)]
            && Scan(text, NextStart(text, s, n), n) == Scan(text, 0, n)[k + 1..]
  {
    var s := SkipIgnored(text, from);
    var rest := Scan(text, 0, n)[k..];
    assert Scan(text, from, n)[0] == (s, TokenEnd(text, s, n));
    assert rest[0] == Scan(text, 0, n)[k] && rest[1..] == Scan(text, 0, n)[k + 1..];
    assert Scan(text, from, n)[1..] == Scan(text, NextStart(text, s, n), n);
  }

  lemma ScanDone(text: Text, from: nat, n: nat)
    requires n > 0 && from <= |text| && SkipIgnored(text, from) == |text|
    ensures Scan(text, from, n) == []
  {
  }
}
