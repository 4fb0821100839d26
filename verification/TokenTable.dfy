/**
 The `tokens` table as the callers use it (mysqldatabase.c:608-714 and 782-920): an id for every
 key that was ever stored, and per id a document count and the encoded postings list. The source stores an MD5
 digest of the key, taken to be injective.
 */
module TokenTable {
  import opened Wrappers
  import opened PostingsCodec
  import opened TokenKey

  datatype Row = Row(docsCount: int, bytes: seq<bv8>)

  datatype Table = Table(ids: map<Key, int>, next: int, rows: map<int, Row>)

  const EmptyTable := Table(map[], 1, map[])

  /** Ids are given out from 1 on without gaps, different keys have different ids, and every id has a row. */
  ghost predicate TableOk(tb: Table)
  {
    && tb.next >= 1
    && (forall id :: id in tb.rows <==> 0 < id < tb.next)
    && (forall t :: t in tb.ids ==> 0 < tb.ids[t] < tb.next && tb.ids[t] in tb.rows)
    && (forall t, u :: t in tb.ids && u in tb.ids && tb.ids[t] == tb.ids[u] ==> t == u)
  }

  /** `SELECT id FROM tokens WHERE token = ?`, 0 when there is none. */
  function IdOf(ids: map<Key, int>, t: Key): int
  {
    if t in ids then ids[t] else 0
  }

  /** `INSERT IGNORE INTO tokens ... VALUES (?, 0, '')`. */
  function Inserted(tb: Table, t: Key): (r: Table)
  {
    if t in tb.ids then tb else Table(tb.ids[t := tb.next], tb.next + 1, tb.rows[tb.next := Row(0, [])])
  }

  /** What an update of one row changes. */
  function Updated(tb: Table, id: int, row: Row): (r: Table)
  {
    tb.(rows := tb.rows[id := row])
  }

  lemma InsertedOk(tb: Table, t: Key)
    requires TableOk(tb)
    ensures TableOk(Inserted(tb, t)) && t in Inserted(tb, t).ids
  {
  }

  // ---------------------------------------------------------------------------
  // Stored lists
  // ---------------------------------------------------------------------------

  /** The list a row stands for; an empty byte string is not decoded. */
  function RowList(how: CompressMethod, row: Row): (ps: seq<Posting>)
  {
    if row.bytes == [] then []
    else
      match FormRead(how, row.bytes)
      case None => []
      case Some(ps) => ps
  }

  /** The row can be decoded, and its count is the length of its list. */
  predicate RowOk(how: CompressMethod, row: Row)
  {
    (row.bytes != [] ==> FormRead(how, row.bytes).Some?) && row.docsCount == |RowList(how, row)|
  }

  /** The stored list of a key. */
  function Stored(how: CompressMethod, tb: Table, t: Key): (ps: seq<Posting>)
  {
    if t in tb.ids && tb.ids[t] in tb.rows then RowList(how, tb.rows[tb.ids[t]]) else []
  }

  ghost predicate RowsOk(how: CompressMethod, tb: Table)
  {
    forall id :: id in tb.rows ==> RowOk(how, tb.rows[id])
  }

  lemma InsertedKeepsLists(how: CompressMethod, tb: Table, t: Key)
    requires TableOk(tb) && RowsOk(how, tb)
    ensures RowsOk(how, Inserted(tb, t))
    ensures forall u :: Stored(how, Inserted(tb, t), u) == Stored(how, tb, u)
  {
    hide FormRead;
  }

  /** Keys keep their ids, and no stored list changes. */
  ghost predicate Grown(how: CompressMethod, old_: Table, tb: Table)
  {
    && TableOk(tb) && RowsOk(how, tb)
    && (forall t :: t in old_.ids ==> t in tb.ids && tb.ids[t] == old_.ids[t])
    && (forall t :: Stored(how, tb, t) == Stored(how, old_, t))
    && (forall t :: t in tb.ids && t !in old_.ids ==> tb.ids[t] >= old_.next)
  }

  lemma GrowByToken(how: CompressMethod, old_: Table, tb: Table, t: Key)
    requires TableOk(old_) && Grown(how, old_, tb) && tb.next >= old_.next
    ensures Grown(how, old_, Inserted(tb, t)) && Inserted(tb, t).next >= old_.next
  {
    hide Stored, RowsOk, TableOk, Inserted;
    InsertedOk(tb, t);
    InsertedKeepsLists(how, tb, t);
    InsertedIds(tb, t);
  }

  lemma InsertedIds(tb: Table, t: Key)
    ensures var r := Inserted(tb, t);
            && r.next >= tb.next
            && (forall u :: u in tb.ids ==> u in r.ids && r.ids[u] == tb.ids[u])
            && (forall u :: u in r.ids && u !in tb.ids ==> r.ids[u] >= tb.next)
  {
  }
}
