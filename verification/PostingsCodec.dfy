/**
 The two stored forms of a postings list (postings.c:15-80 and 225-407): plain four-byte
 integers, and Golomb-coded gaps in byte-aligned sections.

 Decoding is given as a partial function: `None` where the source would read past the end of
 its input or fail `assert(m > 0)`.
 */
module PostingsCodec {
  import opened Wrappers
  import opened BitBuffer
  import opened Golomb
  import opened GapCode

  /** postings_list: one document, the places of a token in it, and their number, kept separately. */
  datatype Posting = Posting(documentId: int, positions: seq<int>, positionsCount: int)

  /** The number kept with the positions is their number. */
  predicate Counted(ps: seq<Posting>)
  {
    forall p :: p in ps ==> p.positionsCount == |p.positions|
  }

  datatype CompressMethod = CompressNone | CompressGolomb

  function Ids(ps: seq<Posting>): (r: seq<int>)
    ensures |r| == |ps| && forall i :: 0 <= i < |ps| ==> r[i] == ps[i].documentId
  {
    seq(|ps|, i requires 0 <= i < |ps| => ps[i].documentId)
  }

  // ---------------------------------------------------------------------------
  // What the encoder relies on
  // ---------------------------------------------------------------------------

  /** `(*pp + 1) / positions_count` for the last position `*pp`. */
  function MeanGap(xs: seq<int>): (m: int)
    requires xs != [] && Ascending(-1, xs)
    ensures m > 0
  {
    LastBound(-1, xs);
    QuotientAtLeastOne(Last(-1, xs) + 1, |xs|);
    (Last(-1, xs) + 1) / |xs|
  }

  /** Positions strictly ascending from 0, and every value the encoder computes fits an `int`. */
  predicate GoodPositions(xs: seq<int>)
  {
    && |xs| <= INT_MAX
    && Ascending(-1, xs)
    && Last(-1, xs) < INT_MAX
    && (xs != [] ==> MeanGap(xs) <= MAX_M)
  }

  predicate GoodPostings(ps: seq<Posting>)
  {
    && Ascending(0, Ids(ps))
    && |ps| <= INT_MAX
    && Last(0, Ids(ps)) <= INT_MAX
    && Counted(ps)
    && forall p :: p in ps ==> GoodPositions(p.positions)
  }

  /** Additionally required by the Golomb form: `m = documents_count / postings_len`. */
  predicate GoodCount(documentsCount: int, ps: seq<Posting>)
  {
    ps != [] ==> |ps| <= documentsCount && DocumentGap(documentsCount, |ps|) <= MAX_M
  }

  lemma QuotientAtLeastOne(a: int, n: int)
    requires 0 < n <= a
    ensures a / n >= 1
  {
  }

  lemma GoodTail(ps: seq<Posting>)
    requires ps != [] && forall p :: p in ps ==> GoodPositions(p.positions)
    ensures GoodPositions(ps[0].positions)
    ensures forall p :: p in ps[1..] ==> GoodPositions(p.positions)
  {
  }

  // ---------------------------------------------------------------------------
  // Golomb form
  // ---------------------------------------------------------------------------

  /** A count, a Golomb parameter, the gaps, and zeros up to the next byte. */
  function SectionBits(m: int, prev: int, xs: seq<int>): (s: seq<bool>)
    requires 0 < m <= INT_MAX && Ascending(prev, xs) && |xs| <= INT_MAX
    ensures |s| % 8 == 0
  {
    hide GapBits, Pad, IntBits;
    var gaps := Pad(GapBits(m, prev, xs));
    TwoInts(|gaps|);
    IntBits(|xs|) + (IntBits(m) + gaps)
  }

  lemma TwoInts(n: nat)
    requires n % 8 == 0
    ensures (32 + (32 + n)) % 8 == 0
  {
  }

  function PositionsBits(xs: seq<int>): (s: seq<bool>)
    requires GoodPositions(xs)
    ensures |s| % 8 == 0
  {
    if xs == [] then IntBits(0) else SectionBits(MeanGap(xs), -1, xs)
  }

  function AllPositionsBits(ps: seq<Posting>): (s: seq<bool>)
    requires forall p :: p in ps ==> GoodPositions(p.positions)
  {
    if ps == [] then []
    else
      GoodTail(ps);
      PositionsBits(ps[0].positions) + AllPositionsBits(ps[1..])
  }

  function DocumentGap(documentsCount: int, n: int): (m: int)
    requires 0 < n <= documentsCount
    ensures m > 0
  {
    QuotientAtLeastOne(documentsCount, n);
    documentsCount / n
  }

  function GolombForm(documentsCount: int, ps: seq<Posting>): (s: seq<bool>)
    requires GoodPostings(ps) && GoodCount(documentsCount, ps)
  {
    if ps == [] then IntBits(0)
    else SectionBits(DocumentGap(documentsCount, |ps|), 0, Ids(ps)) + AllPositionsBits(ps)
  }

  /** `*((int *)p)` at bit `c`. */
  function IntAt(data: seq<bv8>, c: nat): (v: Option<int>)
    ensures v.Some? ==> c + 32 <= 8 * |data|
  {
    if c % 8 == 0 && c / 8 + 4 <= |data| then Some(IntOf(data[c / 8..c / 8 + 4])) else None
  }

  /** One list of positions (postings.c:269-290) and the position after it. */
  function PositionsAt(data: seq<bv8>, c: nat): (r: Option<(seq<int>, nat)>)
    ensures r.Some? ==> c <= r.value.1
  {
    match IntAt(data, c)
    case None => None
    case Some(count) =>
      match IntAt(data, c + 32)
      case None => None
      case Some(m) =>
        if m <= 0 || m > MAX_M then None
        else
          var (xs, c1) := GapsAt(m, BytesBits(data), c + 64, if count < 0 then 0 else count, -1);
          Some((xs, c1 + Slack(c1)))
  }

  /** `pl->positions_count` as read before the positions. */
  function CountAt(data: seq<bv8>, c: nat): (count: int)
  {
    match IntAt(data, c)
    case None => 0
    case Some(count) => count
  }

  function AllPositionsAt(data: seq<bv8>, c: nat, ids: seq<int>): (r: Option<(seq<Posting>, nat)>)
    decreases |ids|
  {
    if ids == [] then Some(([], c))
    else
      match PositionsAt(data, c)
      case None => None
      case Some((xs, c1)) =>
        match AllPositionsAt(data, c1, ids[1..])
        case None => None
        case Some((ps, c2)) => Some(([Posting(ids[0], xs, CountAt(data, c))] + ps, c2))
  }

  function IdsAt(data: seq<bv8>): (r: Option<(seq<int>, nat)>)
  {
    match IntAt(data, 0)
    case None => None
    case Some(count) =>
      match IntAt(data, 32)
      case None => None
      case Some(m) =>
        if m <= 0 || m > MAX_M then None
        else
          var (ids, c) := GapsAt(m, BytesBits(data), 64, if count < 0 then 0 else count, 0);
          Some((ids, c + Slack(c)))
  }

  /** decode_postings_golomb: the list and the bit position where reading stopped. */
  function GolombFormRead(data: seq<bv8>): (r: Option<(seq<Posting>, nat)>)
  {
    match IdsAt(data)
    case None => None
    case Some((ids, c)) => AllPositionsAt(data, c, ids)
  }

  // ---------------------------------------------------------------------------
  // Round trip
  // ---------------------------------------------------------------------------

  lemma IntReadBack(data: seq<bv8>, c: nat, v: int)
    requires 0 <= v <= INT_MAX && c % 8 == 0 && CodeAt(BytesBits(data), c, IntBits(v))
    ensures IntAt(data, c) == Some(v)
  {
    hide IntOf, IntBytes, BytesBits;
    var p := c / 8;
    BytesBitsSlice(data, p, p + 4);
    BytesBitsInjective(data[p..p + 4], IntBytes(v));
    IntRoundTrip(v);
  }

  lemma PadReadBack(bits: seq<bool>, c: nat, s: seq<bool>)
    requires c % 8 == 0 && CodeAt(bits, c, Pad(s))
    ensures CodeAt(bits, c, s)
    ensures c + |s| + Slack(c + |s|) == c + |Pad(s)|
  {
    hide CodeAt;
    CodeAtSplit(bits, c, s, Zeros(Slack(|s|)));
    assert (c + |s|) % 8 == |s| % 8;
  }

  /** The header-and-gaps section shared by ids and positions reads back. */
  lemma SectionReadBack(data: seq<bv8>, c: nat, m: int, prev: int, xs: seq<int>)
    requires c % 8 == 0 && |xs| <= INT_MAX && 0 < m <= INT_MAX && Ascending(prev, xs)
    requires CodeAt(BytesBits(data), c, SectionBits(m, prev, xs))
    ensures IntAt(data, c) == Some(|xs|) && IntAt(data, c + 32) == Some(m)
    ensures var (ys, c1) := GapsAt(m, BytesBits(data), c + 64, |xs|, prev);
            ys == xs && c1 + Slack(c1) == c + |SectionBits(m, prev, xs)|
  {
    hide IntBits, BytesBits, GapBits, IntAt, Pad, GapsAt, CodeAt;
    var bits, gaps := BytesBits(data), GapBits(m, prev, xs);
    CodeAtSplit(bits, c, IntBits(|xs|), IntBits(m) + Pad(gaps));
    CodeAtSplit(bits, c + 32, IntBits(m), Pad(gaps));
    IntReadBack(data, c, |xs|);
    IntReadBack(data, c + 32, m);
    PadReadBack(bits, c + 64, gaps);
    assert CodeAt(bits, c + 64, gaps) && c + 64 <= |bits| by { CodeInRange(bits, c + 64, gaps); }
    GapsRoundTrip(m, prev, xs, bits, c + 64);
  }

  lemma CodeInRange(bits: seq<bool>, c: nat, code: seq<bool>)
    requires CodeAt(bits, c, code)
    ensures c + |code| <= |bits|
  {
  }

  lemma PositionsReadBack(data: seq<bv8>, c: nat, xs: seq<int>)
    requires c % 8 == 0 && xs != [] && GoodPositions(xs)
    requires CodeAt(BytesBits(data), c, PositionsBits(xs))
    ensures PositionsAt(data, c) == Some((xs, c + |PositionsBits(xs)|)) && CountAt(data, c) == |xs|
  {
    hide BytesBits, GapBits, IntAt, Pad, GapsAt, CodeAt, Ascending;
    SectionReadBack(data, c, MeanGap(xs), -1, xs);
  }

  lemma CountedTail(ps: seq<Posting>)
    requires ps != [] && Counted(ps)
    ensures ps[0].positionsCount == |ps[0].positions| && Counted(ps[1..])
  {
  }

  lemma IdsTail(ps: seq<Posting>)
    requires ps != []
    ensures Ids(ps)[0] == ps[0].documentId && Ids(ps)[1..] == Ids(ps[1..])
  {
  }

  lemma {:induction false} AllPositionsReadBack(data: seq<bv8>, c: nat, ps: seq<Posting>)
    requires c % 8 == 0
    requires Counted(ps) && forall p :: p in ps ==> GoodPositions(p.positions) && p.positions != []
    requires CodeAt(BytesBits(data), c, AllPositionsBits(ps))
    ensures AllPositionsAt(data, c, Ids(ps)) == Some((ps, c + |AllPositionsBits(ps)|))
    decreases |ps|
  {
    hide BytesBits, PositionsAt, PositionsBits, CodeAt, GoodPositions, CountAt, Counted;
    if ps != [] {
      var first, rest := PositionsBits(ps[0].positions), AllPositionsBits(ps[1..]);
      GoodTail(ps);
      CountedTail(ps);
      assert AllPositionsBits(ps) == first + rest;
      Aligned(c, |first|);
      hide AllPositionsBits, AllPositionsAt;
      CodeAtSplit(BytesBits(data), c, first, rest);
      PositionsReadBack(data, c, ps[0].positions);
      AllPositionsReadBack(data, c + |first|, ps[1..]);
      IdsTail(ps);
      hide Ids, Counted;
      FirstPositionsAt(data, c, Ids(ps), ps[0].positions, c + |first|, ps[1..], c + |first| + |rest|);
      assert ps == [Posting(ps[0].documentId, ps[0].positions, |ps[0].positions|)] + ps[1..];
    }
  }

  lemma Aligned(c: nat, n: nat)
    requires c % 8 == 0 && n % 8 == 0
    ensures (c + n) % 8 == 0
  {
  }

  lemma FirstPositionsAt(data: seq<bv8>, c: nat, ids: seq<int>, xs: seq<int>, c1: nat, ps: seq<Posting>, c2: nat)
    requires ids != [] && PositionsAt(data, c) == Some((xs, c1)) && AllPositionsAt(data, c1, ids[1..]) == Some((ps, c2))
    ensures AllPositionsAt(data, c, ids) == Some(([Posting(ids[0], xs, CountAt(data, c))] + ps, c2))
  {
    hide PositionsAt, CountAt;
  }

  /**
   The central law of the codec: decode_postings_golomb undoes encode_postings_golomb and
   stops exactly at the last byte written.
   */
  lemma GolombFormRoundTrip(documentsCount: int, ps: seq<Posting>, data: seq<bv8>)
    requires GoodPostings(ps) && GoodCount(documentsCount, ps)
    requires ps != [] && forall p :: p in ps ==> p.positions != []
    requires BytesBits(data) == GolombForm(documentsCount, ps)
    ensures GolombFormRead(data) == Some((ps, 8 * |data|))
  {
    hide BytesBits, GapBits, IntAt, Pad, GapsAt, CodeAt, AllPositionsAt, AllPositionsBits, Ascending, GoodPositions;
    var m, ids, bits := DocumentGap(documentsCount, |ps|), Ids(ps), BytesBits(data);
    var head := SectionBits(m, 0, ids);
    WholeCode(bits);
    CodeAtSplit(bits, 0, head, AllPositionsBits(ps));
    SectionReadBack(data, 0, m, 0, ids);
    AllPositionsReadBack(data, |head|, ps);
  }

  lemma WholeCode(bits: seq<bool>)
    ensures CodeAt(bits, 0, bits)
  {
  }

  /** For an empty list the encoder writes no `m`, which the decoder always reads. */
  lemma EmptyListNotReadable(documentsCount: int, data: seq<bv8>)
    requires BytesBits(data) == GolombForm(documentsCount, [])
    ensures GolombFormRead(data) == None
  {
    assert |BytesBits(data)| == 32;
  }

  /** Nor for an empty list of positions: behind the last one there is nothing left to read. */
  lemma {:induction false} EmptyLastPosting(data: seq<bv8>, c: nat, ps: seq<Posting>)
    requires c % 8 == 0 && ps != [] && ps[|ps| - 1].positions == []
    requires forall p :: p in ps ==> GoodPositions(p.positions)
    requires forall k :: 0 <= k < |ps| - 1 ==> ps[k].positions != []
    requires CodeAt(BytesBits(data), c, AllPositionsBits(ps)) && c + |AllPositionsBits(ps)| == 8 * |data|
    ensures AllPositionsAt(data, c, Ids(ps)) == None
    decreases |ps|
  {
    hide BytesBits, PositionsBits, CodeAt, GoodPositions, IntAt;
    var first, rest := PositionsBits(ps[0].positions), AllPositionsBits(ps[1..]);
    GoodTail(ps);
    assert AllPositionsBits(ps) == first + rest;
    CodeAtSplit(BytesBits(data), c, first, rest);
    IdsTail(ps);
    if |ps| == 1 {
      EmptyPositionsAt(data, c, ps[0].positions);
    } else {
      hide PositionsAt, AllPositionsBits;
      Aligned(c, |first|);
      PositionsReadBack(data, c, ps[0].positions);
      assert ps[1..][|ps| - 2] == ps[|ps| - 1];
      EmptyLastPosting(data, c + |first|, ps[1..]);
    }
  }

  lemma EmptyPositionsAt(data: seq<bv8>, c: nat, xs: seq<int>)
    requires xs == [] && GoodPositions(xs) && c + |PositionsBits(xs)| == 8 * |data|
    ensures PositionsAt(data, c) == None
  {
    hide GapsAt;
  }

  /**
   Of the lists without empty postings except perhaps the last, the decoder can read back exactly those without any.
   */
  lemma GolombFormReadable(documentsCount: int, ps: seq<Posting>, data: seq<bv8>)
    requires GoodPostings(ps) && GoodCount(documentsCount, ps)
    requires forall k :: 0 <= k < |ps| - 1 ==> ps[k].positions != []
    requires BytesBits(data) == GolombForm(documentsCount, ps)
    ensures GolombFormRead(data).Some? <==> ps != [] && ps[|ps| - 1].positions != []
  {
    hide *;
    if ps == [] {
      EmptyListNotReadable(documentsCount, data);
    } else if ps[|ps| - 1].positions != [] {
      assert forall k :: 0 <= k < |ps| ==> ps[k].positions != [];
      GolombFormRoundTrip(documentsCount, ps, data);
    } else {
      EmptyLastNotReadable(documentsCount, ps, data);
    }
  }

  lemma EmptyLastNotReadable(documentsCount: int, ps: seq<Posting>, data: seq<bv8>)
    requires GoodPostings(ps) && GoodCount(documentsCount, ps)
    requires ps != [] && ps[|ps| - 1].positions == [] && forall k :: 0 <= k < |ps| - 1 ==> ps[k].positions != []
    requires BytesBits(data) == GolombForm(documentsCount, ps)
    ensures GolombFormRead(data) == None
  {
    hide BytesBits, GapBits, IntAt, Pad, GapsAt, CodeAt, AllPositionsAt, AllPositionsBits, Ascending, GoodPositions;
    var m, ids, bits := DocumentGap(documentsCount, |ps|), Ids(ps), BytesBits(data);
    var head := SectionBits(m, 0, ids);
    WholeCode(bits);
    CodeAtSplit(bits, 0, head, AllPositionsBits(ps));
    SectionReadBack(data, 0, m, 0, ids);
    EmptyLastPosting(data, |head|, ps);
  }

  // ---------------------------------------------------------------------------
  // The parameters that are stored
  // ---------------------------------------------------------------------------

  /** `m` is the quotient of `a` by `n`, rounded down. */
  predicate IsQuotient(m: int, a: int, n: int)
  {
    m * n <= a < (m + 1) * n
  }

  lemma QuotientStored(a: int, n: int)
    requires n > 0
    ensures IsQuotient(a / n, a, n)
  {
    DivMod(a, n);
    assert (a / n + 1) * n == a / n * n + n;
  }

  /** Behind the count of the list stands the mean gap of its document ids. */
  lemma DocumentsHeader(documentsCount: int, ps: seq<Posting>, data: seq<bv8>) returns (m: int)
    requires GoodPostings(ps) && GoodCount(documentsCount, ps) && ps != []
    requires BytesBits(data) == GolombForm(documentsCount, ps)
    ensures IntAt(data, 0) == Some(|ps|) && IntAt(data, 32) == Some(m) && IsQuotient(m, documentsCount, |ps|)
  {
    hide BytesBits, GapBits, IntAt, Pad, GapsAt, CodeAt, AllPositionsBits, Ascending, GoodPositions, SectionBits;
    hide IsQuotient;
    m := DocumentGap(documentsCount, |ps|);
    QuotientStored(documentsCount, |ps|);
    var bits := BytesBits(data);
    WholeCode(bits);
    CodeAtSplit(bits, 0, SectionBits(m, 0, Ids(ps)), AllPositionsBits(ps));
    SectionReadBack(data, 0, m, 0, Ids(ps));
  }

  /** Where the positions of posting `i` begin: behind the ids and the positions of the postings before. */
  function PositionsStart(documentsCount: int, ps: seq<Posting>, i: nat): (c: nat)
    requires GoodPostings(ps) && GoodCount(documentsCount, ps) && i < |ps|
  {
    hide GoodPositions;
    |SectionBits(DocumentGap(documentsCount, |ps|), 0, Ids(ps))| + |AllPositionsBits(ps[..i])|
  }

  lemma {:induction false} AllPositionsSplit(ps: seq<Posting>, i: nat)
    requires i < |ps| && forall p :: p in ps ==> GoodPositions(p.positions)
    ensures AllPositionsBits(ps)
            == AllPositionsBits(ps[..i]) + (PositionsBits(ps[i].positions) + AllPositionsBits(ps[i + 1..]))
    ensures |AllPositionsBits(ps[..i])| % 8 == 0
  {
    hide GoodPositions, PositionsBits;
    if i > 0 {
      AllPositionsSplit(ps[1..], i - 1);
      assert ps[1..][..i - 1] == ps[..i][1..] && ps[1..][i..] == ps[i + 1..];
      Aligned(|PositionsBits(ps[0].positions)|, |AllPositionsBits(ps[..i][1..])|);
      Assoc(PositionsBits(ps[0].positions), AllPositionsBits(ps[..i][1..]),
            PositionsBits(ps[i].positions) + AllPositionsBits(ps[i + 1..]));
    } else {
      assert [] + AllPositionsBits(ps) == AllPositionsBits(ps);
    }
  }

  /** Behind the count of each list of positions stands their mean gap. */
  lemma PositionsHeader(documentsCount: int, ps: seq<Posting>, data: seq<bv8>, i: nat) returns (m: int)
    requires GoodPostings(ps) && GoodCount(documentsCount, ps) && i < |ps| && ps[i].positions != []
    requires BytesBits(data) == GolombForm(documentsCount, ps)
    ensures var c, xs := PositionsStart(documentsCount, ps, i), ps[i].positions;
            && IntAt(data, c) == Some(|xs|) && IntAt(data, c + 32) == Some(m)
            && IsQuotient(m, xs[|xs| - 1] + 1, |xs|)
            && PositionsAt(data, c) == Some((xs, c + |PositionsBits(xs)|))
  {
    hide BytesBits, GapBits, IntAt, Pad, GapsAt, CodeAt, AllPositionsBits, Ascending, IsQuotient, SectionBits;
    var bits, xs := BytesBits(data), ps[i].positions;
    var head := SectionBits(DocumentGap(documentsCount, |ps|), 0, Ids(ps));
    var before, rest := AllPositionsBits(ps[..i]), AllPositionsBits(ps[i + 1..]);
    WholeCode(bits);
    CodeAtSplit(bits, 0, head, AllPositionsBits(ps));
    AllPositionsSplit(ps, i);
    CodeAtSplit(bits, |head|, before, PositionsBits(xs) + rest);
    var c := |head| + |before|;
    CodeAtSplit(bits, c, PositionsBits(xs), rest);
    Aligned(|head|, |before|);
    assert ps[i] in ps;
    m := MeanGap(xs);
    QuotientStored(xs[|xs| - 1] + 1, |xs|);
    SectionReadBack(data, c, m, -1, xs);
    PositionsReadBack(data, c, xs);
  }

  // ---------------------------------------------------------------------------
  // The size of the Golomb form
  // ---------------------------------------------------------------------------

  /** Two `int`s of header, `b + 2` bits for each of `n` numbers, and at most seven bits of padding. */
  function SectionLimit(n: nat, m: int): (bits: int)
    requires m > 0
  {
    64 + n * (Width(m) + 2) + 7
  }

  /** What one list of positions may take. */
  function PostingLimit(xs: seq<int>): (bits: int)
    requires GoodPositions(xs) && xs != []
  {
    LastBound(-1, xs);
    QuotientAtLeastOne(xs[|xs| - 1] + 1, |xs|);
    SectionLimit(|xs|, (xs[|xs| - 1] + 1) / |xs|)
  }

  function PositionsLimit(ps: seq<Posting>): (bits: int)
    requires forall p :: p in ps ==> GoodPositions(p.positions) && p.positions != []
  {
    hide GoodPositions;
    if ps == [] then 0
    else
      assert ps[0] in ps;
      PostingLimit(ps[0].positions) + PositionsLimit(ps[1..])
  }

  /** What the whole form may take. */
  function FormLimit(documentsCount: int, ps: seq<Posting>): (bits: int)
    requires GoodPostings(ps) && GoodCount(documentsCount, ps)
    requires ps != [] && forall p :: p in ps ==> p.positions != []
  {
    hide GoodPositions;
    QuotientAtLeastOne(documentsCount, |ps|);
    SectionLimit(|ps|, documentsCount / |ps|) + PositionsLimit(ps)
  }

  lemma SectionBound(m: int, prev: int, xs: seq<int>, top: int)
    requires 0 < m <= INT_MAX && xs != [] && |xs| <= INT_MAX && Ascending(prev, xs)
    requires Last(prev, xs) <= top && m == (top - prev) / |xs|
    ensures |SectionBits(m, prev, xs)| < SectionLimit(|xs|, m)
  {
    hide GapBits, IntBits, Width;
    SizeBound(m, prev, xs, top);
  }

  lemma {:induction false} PositionsBound(ps: seq<Posting>)
    requires forall p :: p in ps ==> GoodPositions(p.positions) && p.positions != []
    ensures |AllPositionsBits(ps)| <= PositionsLimit(ps)
  {
    hide PostingLimit, PositionsBits, GoodPositions;
    if ps != [] {
      assert ps[0] in ps;
      PostingBound(ps[0].positions);
      PositionsBound(ps[1..]);
    }
  }

  lemma PostingBound(xs: seq<int>)
    requires GoodPositions(xs) && xs != []
    ensures |PositionsBits(xs)| <= PostingLimit(xs)
  {
    hide SectionLimit, SectionBits;
    SectionBound(MeanGap(xs), -1, xs, Last(-1, xs));
  }

  /** A whole list takes fewer bits than its sections may. */
  lemma FormBound(documentsCount: int, ps: seq<Posting>)
    requires GoodPostings(ps) && GoodCount(documentsCount, ps) && Last(0, Ids(ps)) <= documentsCount
    requires ps != [] && forall p :: p in ps ==> p.positions != []
    ensures |GolombForm(documentsCount, ps)| < FormLimit(documentsCount, ps)
  {
    hide SectionLimit, SectionBits, AllPositionsBits, PositionsLimit, GoodPositions, Ascending, Counted, Ids, Last;
    var m := DocumentGap(documentsCount, |ps|);
    SectionBound(m, 0, Ids(ps), documentsCount);
    PositionsBound(ps);
  }

  // ---------------------------------------------------------------------------
  // Plain form
  // ---------------------------------------------------------------------------

  function PlainInts(ps: seq<Posting>): (xs: seq<int>)
  {
    if ps == [] then []
    else [ps[0].documentId, ps[0].positionsCount] + ps[0].positions + PlainInts(ps[1..])
  }

  /** decode_postings_none over the input as a sequence of `int`s. */
  function PlainRead(xs: seq<int>): (r: Option<seq<Posting>>)
    decreases |xs|
  {
    if xs == [] then Some([])
    else if |xs| < 2 then None
    else
      var n := if xs[1] < 0 then 0 else xs[1];
      if |xs| < 2 + n then None
      else
        match PlainRead(xs[2 + n..])
        case None => None
        case Some(ps) => Some([Posting(xs[0], xs[2..2 + n], xs[1])] + ps)
  }

  /** The plain form keeps every list, including empty ones and ones with empty postings. */
  lemma {:induction false} PlainRoundTrip(ps: seq<Posting>)
    requires Counted(ps)
    ensures PlainRead(PlainInts(ps)) == Some(ps)
    decreases |ps|
  {
    if ps != [] {
      PlainRoundTrip(ps[1..]);
      var xs, n := PlainInts(ps), |ps[0].positions|;
      assert xs[2..2 + n] == ps[0].positions;
      assert xs[2 + n..] == PlainInts(ps[1..]);
      assert ps == [Posting(xs[0], xs[2..2 + n], xs[1])] + ps[1..];
    }
  }

  predicate InRange(xs: seq<int>)
  {
    forall i :: 0 <= i < |xs| ==> 0 <= xs[i] <= INT_MAX
  }

  /** A sequence of `int`s in memory. */
  function IntsBytes(xs: seq<int>): (s: seq<bv8>)
    requires InRange(xs)
    ensures |s| == 4 * |xs|
  {
    if xs == [] then [] else IntBytes(xs[0]) + IntsBytes(xs[1..])
  }

  /** The `int`s of a byte string; a trailing part of an `int` cannot be read. */
  function IntsOf(data: seq<bv8>): (r: Option<seq<int>>)
    ensures r.Some? ==> 4 * |r.value| == |data|
  {
    if data == [] then Some([])
    else if |data| < 4 then None
    else
      match IntsOf(data[4..])
      case None => None
      case Some(xs) => Some([IntOf(data[..4])] + xs)
  }

  lemma {:induction false} IntsRoundTrip(xs: seq<int>)
    requires InRange(xs)
    ensures IntsOf(IntsBytes(xs)) == Some(xs)
  {
    hide IntOf, IntBytes;
    if xs != [] {
      IntsRoundTrip(xs[1..]);
      IntRoundTrip(xs[0]);
      var data := IntsBytes(xs);
      assert data[..4] == IntBytes(xs[0]) && data[4..] == IntsBytes(xs[1..]);
      assert xs == [xs[0]] + xs[1..];
    }
  }

  lemma {:induction false} IntsBytesConcat(xs: seq<int>, ys: seq<int>)
    requires InRange(xs)
    requires InRange(ys)
    ensures InRange(xs + ys)
    ensures IntsBytes(xs + ys) == IntsBytes(xs) + IntsBytes(ys)
  {
    hide IntBytes;
    if xs == [] {
      assert xs + ys == ys;
    } else {
      IntsBytesConcat(xs[1..], ys);
      assert (xs + ys)[1..] == xs[1..] + ys;
      Assoc(IntBytes(xs[0]), IntsBytes(xs[1..]), IntsBytes(ys));
    }
  }

  // ---------------------------------------------------------------------------
  // Either form
  // ---------------------------------------------------------------------------

  /** decode_postings: what a stored byte string means. */
  function FormRead(how: CompressMethod, data: seq<bv8>): (r: Option<seq<Posting>>)
  {
    match how
    case CompressNone =>
      (match IntsOf(data)
       case None => None
       case Some(xs) => PlainRead(xs))
    case CompressGolomb =>
      match GolombFormRead(data)
      case None => None
      case Some((ps, _)) => Some(ps)
  }
}
