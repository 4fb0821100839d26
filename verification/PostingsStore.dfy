/**
 The encoders and decoders of postings.c as they run: loops over a list that fill a buffer,
 and loops over stored bytes that rebuild the list.
 */
module PostingsStore {
  import opened Wrappers
  import opened BitBuffer
  import opened Golomb
  import opened GapCode
  import opened PostingsCodec

  // ---------------------------------------------------------------------------
  // Golomb form
  // ---------------------------------------------------------------------------

  /** Header, gaps and realignment: `append_buffer` of two `int`s, codes, `append_buffer(NULL, 0)`. */
  method EncodeSection(m: int, prev: int, xs: seq<int>, count: int, buf: Buffer)
    requires buf.Valid() && buf.bit == 0 && count == |xs|
    requires 0 < m <= MAX_M && Ascending(prev, xs) && |xs| <= INT_MAX
    modifies buf, buf.data
    ensures buf.Valid() && (buf.data == old(buf.data) || fresh(buf.data))
    ensures buf.bit == 0
    ensures buf.Bits() == old(buf.Bits()) + SectionBits(m, prev, xs)
  {
    hide GapBits, Pad, IntBits, Buffer.Bits, CeilLog2, BytesBits;
    ghost var start := buf.Bits();
    var b, t := CalcGolombParams(m);
    buf.AppendInt(count);
    buf.AppendInt(m);
    EncodeGaps(m, b, t, prev, xs, buf);
    buf.Append([]);
    SectionAssembled(start, m, prev, xs, buf.Bits());
  }

  lemma SectionAssembled(start: seq<bool>, m: int, prev: int, xs: seq<int>, all: seq<bool>)
    requires |start| % 8 == 0
    requires 0 < m <= MAX_M && Ascending(prev, xs) && |xs| <= INT_MAX
    requires all == Pad(Pad(Pad(start) + IntBits(|xs|)) + IntBits(m) + GapBits(m, prev, xs)) + BytesBits([])
    ensures all == start + SectionBits(m, prev, xs)
  {
    hide GapBits, IntBits, BytesBits;
    var gaps := GapBits(m, prev, xs);
    var head := start + IntBits(|xs|) + IntBits(m);
    assert Pad(Pad(start) + IntBits(|xs|)) + IntBits(m) == head;
    PadAligned(head, gaps);
    assert all == head + Pad(gaps);
    Assoc(start + IntBits(|xs|), IntBits(m), Pad(gaps));
    Assoc(start, IntBits(|xs|), IntBits(m) + Pad(gaps));
  }

  /** encode_postings_golomb into a fresh buffer. */
  method EncodePostingsGolomb(documentsCount: int, ps: seq<Posting>, buf: Buffer)
    requires buf.Valid() && buf.Bits() == []
    requires GoodPostings(ps) && GoodCount(documentsCount, ps)
    modifies buf, buf.data
    ensures buf.Valid() && (buf.data == old(buf.data) || fresh(buf.data))
    ensures buf.bit == 0
    ensures buf.Bits() == GolombForm(documentsCount, ps)
    ensures ps != [] ==> CodeAt(buf.Bits(), 0, IntBits(|ps|)) && CodeAt(buf.Bits(), 32, IntBits(documentsCount / |ps|))
  {
    hide GapBits, Pad, IntBits, Buffer.Bits, BytesBits, SectionBits, Ascending, AllPositionsBits;
    if ps != [] {
      var m := documentsCount / |ps|;
      EncodeSection(m, 0, Ids(ps), |ps|, buf);
    } else {
      buf.AppendInt(0);
      EmptyForm();
    }
    ghost var head := buf.Bits();
    assert GolombForm(documentsCount, ps) == head + AllPositionsBits(ps) by { EmptyTail(head, ps); }
    EncodeAllPositions(ps, buf);
    assert buf.Bits() == head + AllPositionsBits(ps);
    if ps != [] {
      SectionStart(documentsCount / |ps|, 0, Ids(ps), AllPositionsBits(ps));
    }
  }

  /** A section begins with its count and its Golomb parameter. */
  lemma SectionStart(m: int, prev: int, xs: seq<int>, rest: seq<bool>)
    requires 0 < m <= INT_MAX && Ascending(prev, xs) && |xs| <= INT_MAX
    ensures CodeAt(SectionBits(m, prev, xs) + rest, 0, IntBits(|xs|))
    ensures CodeAt(SectionBits(m, prev, xs) + rest, 32, IntBits(m))
  {
    hide IntBits, GapBits, Pad, CodeAt, Ascending;
    var code, gaps := SectionBits(m, prev, xs) + rest, Pad(GapBits(m, prev, xs));
    WholeCode(code);
    CodeAtSplit(code, 0, SectionBits(m, prev, xs), rest);
    CodeAtSplit(code, 0, IntBits(|xs|), IntBits(m) + gaps);
    CodeAtSplit(code, 32, IntBits(m), gaps);
  }

  lemma EmptyForm()
    ensures Pad([]) + IntBits(0) == IntBits(0)
  {
  }

  lemma EmptyTail(head: seq<bool>, ps: seq<Posting>)
    requires forall p :: p in ps ==> GoodPositions(p.positions)
    ensures ps == [] ==> head + AllPositionsBits(ps) == head
  {
  }

  /** The second loop of encode_postings_golomb. */
  method EncodeAllPositions(ps: seq<Posting>, buf: Buffer)
    requires buf.Valid() && buf.bit == 0
    requires Counted(ps) && forall p :: p in ps ==> GoodPositions(p.positions)
    modifies buf, buf.data
    ensures buf.Valid() && (buf.data == old(buf.data) || fresh(buf.data))
    ensures buf.bit == 0
    ensures buf.Bits() == old(buf.Bits()) + AllPositionsBits(ps)
  {
    hide GapBits, Pad, IntBits, Buffer.Bits, BytesBits, GoodPositions, PositionsBits;
    ghost var start := buf.Bits();
    for i := 0 to |ps|
      invariant buf.Valid() && (buf.data == old(buf.data) || fresh(buf.data))
      invariant buf.bit == 0
      invariant buf.Bits() + AllPositionsBits(ps[i..]) == start + AllPositionsBits(ps)
    {
      ghost var before := buf.Bits();
      EncodePositions(ps[i].positions, ps[i].positionsCount, buf);
      assert ps[i..][1..] == ps[i + 1..];
      Assoc(before, PositionsBits(ps[i].positions), AllPositionsBits(ps[i + 1..]));
    }
    assert ps[|ps|..] == [];
    EmptyTail(buf.Bits(), []);
  }

  method EncodePositions(xs: seq<int>, count: int, buf: Buffer)
    requires buf.Valid() && buf.bit == 0 && GoodPositions(xs) && count == |xs|
    modifies buf, buf.data
    ensures buf.Valid() && (buf.data == old(buf.data) || fresh(buf.data))
    ensures buf.bit == 0
    ensures buf.Bits() == old(buf.Bits()) + PositionsBits(xs)
  {
    hide GapBits, IntBits, Buffer.Bits, BytesBits, SectionBits;
    if count == 0 {
      buf.AppendInt(count);
    } else {
      var m := (xs[|xs| - 1] + 1) / count;
      EncodeSection(m, -1, xs, count, buf);
    }
  }

  /** decode_postings_golomb on any input that it can read without leaving it. */
  method DecodePostingsGolomb(data: seq<bv8>) returns (ps: seq<Posting>)
    requires GolombFormRead(data).Some?
    ensures ps == GolombFormRead(data).value.0
  {
    hide BytesBits, BitReader.Valid, CeilLog2, GapsAt, IntOf, PositionsAt, AllPositionsAt;
    var rd := new BitReader(data);
    var count := rd.ReadInt();
    var m := rd.ReadInt();
    var b, t := CalcGolombParams(m);
    var ids := DecodeGaps(m, b, t, count, 0, rd);
    rd.Align();
    ps := DecodeAllPositions(rd, ids);
  }

  /** The second loop of decode_postings_golomb. */
  method DecodeAllPositions(rd: BitReader, ids: seq<int>) returns (ps: seq<Posting>)
    requires rd.Valid() && AllPositionsAt(rd.data, rd.cursor, ids).Some?
    modifies rd
    ensures ps == AllPositionsAt(rd.data, old(rd.cursor), ids).value.0
  {
    hide BytesBits, BitReader.Valid, PositionsAt, CountAt;
    ps := [];
    ghost var all := AllPositionsAt(rd.data, rd.cursor, ids).value.0;
    for i := 0 to |ids|
      invariant rd.Valid()
      invariant AllPositionsAt(rd.data, rd.cursor, ids[i..]).Some?
      invariant ps + AllPositionsAt(rd.data, rd.cursor, ids[i..]).value.0 == all
    {
      ghost var c, before := rd.cursor, ps;
      assert ids[i..][1..] == ids[i + 1..];
      var positions, count := DecodePositions(rd);
      ps := ps + [Posting(ids[i], positions, count)];
      Assoc(before, [Posting(ids[i], positions, count)], AllPositionsAt(rd.data, rd.cursor, ids[i + 1..]).value.0);
    }
    assert ids[|ids|..] == [];
  }

  method DecodePositions(rd: BitReader) returns (xs: seq<int>, count: int)
    requires rd.Valid() && PositionsAt(rd.data, rd.cursor).Some?
    modifies rd
    ensures rd.Valid()
    ensures (xs, rd.cursor) == PositionsAt(rd.data, old(rd.cursor)).value
    ensures count == CountAt(rd.data, old(rd.cursor))
  {
    hide BytesBits, CeilLog2, GapsAt, IntOf;
    count := rd.ReadInt();
    var m := rd.ReadInt();
    var b, t := CalcGolombParams(m);
    xs := DecodeGaps(m, b, t, count, -1, rd);
    rd.Align();
  }

  // ---------------------------------------------------------------------------
  // Plain form
  // ---------------------------------------------------------------------------

  /** encode_postings_none into a fresh buffer. */
  method EncodePostingsNone(ps: seq<Posting>, buf: Buffer)
    requires buf.Valid() && buf.Bits() == []
    requires GoodPostings(ps)
    modifies buf, buf.data
    ensures buf.Valid() && (buf.data == old(buf.data) || fresh(buf.data))
    ensures buf.bit == 0
    ensures InRange(PlainInts(ps)) && buf.Bits() == BytesBits(IntsBytes(PlainInts(ps)))
  {
    hide Buffer.Bits, BytesBits, IntBytes, IntsBytes, GoodPositions, GoodPostings;
    ghost var done: seq<int> := [];
    assert BytesBits(IntsBytes([])) == [] by { NoBits(); }
    for i := 0 to |ps|
      invariant buf.Valid() && (buf.data == old(buf.data) || fresh(buf.data))
      invariant buf.bit == 0
      invariant done + PlainInts(ps[i..]) == PlainInts(ps)
      invariant InRange(done) && buf.Bits() == BytesBits(IntsBytes(done))
    {
      ghost var before := done;
      IdInRange(ps, i);
      done := EncodePlainPosting(ps[i], buf, done);
      assert ps[i..][1..] == ps[i + 1..];
      Assoc(before, [ps[i].documentId, ps[i].positionsCount] + ps[i].positions, PlainInts(ps[i + 1..]));
    }
    assert ps[|ps|..] == [];
    assert done == PlainInts(ps);
  }

  lemma NoBits()
    ensures BytesBits(IntsBytes([])) == []
  {
  }

  method EncodePlainPosting(p: Posting, buf: Buffer, ghost done: seq<int>) returns (ghost done': seq<int>)
    requires buf.Valid() && buf.bit == 0
    requires 0 < p.documentId <= INT_MAX && GoodPositions(p.positions) && p.positionsCount == |p.positions|
    requires InRange(done) && buf.Bits() == BytesBits(IntsBytes(done))
    modifies buf, buf.data
    ensures buf.Valid() && (buf.data == old(buf.data) || fresh(buf.data))
    ensures buf.bit == 0
    ensures done' == done + ([p.documentId, p.positionsCount] + p.positions)
    ensures InRange(done') && buf.Bits() == BytesBits(IntsBytes(done'))
  {
    hide Buffer.Bits, BytesBits, IntBytes, IntsBytes, GoodPositions;
    CountInRange(p.positions);
    done' := AppendPlain(p.documentId, buf, done);
    done' := AppendPlain(p.positionsCount, buf, done');
    ghost var head := done';
    for j := 0 to |p.positions|
      invariant buf.Valid() && (buf.data == old(buf.data) || fresh(buf.data))
      invariant buf.bit == 0
      invariant done' == head + p.positions[..j]
      invariant InRange(done') && buf.Bits() == BytesBits(IntsBytes(done'))
    {
      PositionInRange(p.positions, j);
      done' := AppendPlain(p.positions[j], buf, done');
    }
    assert p.positions[..|p.positions|] == p.positions;
  }

  lemma CountInRange(xs: seq<int>)
    requires GoodPositions(xs)
    ensures |xs| <= INT_MAX
  {
  }

  lemma IdInRange(ps: seq<Posting>, i: nat)
    requires GoodPostings(ps) && i < |ps|
    ensures 0 < ps[i].documentId <= INT_MAX && GoodPositions(ps[i].positions) && |ps[i].positions| <= INT_MAX
    ensures ps[i].positionsCount == |ps[i].positions|
  {
    AscendingOrder(0, Ids(ps));
    assert Ids(ps)[i] <= Last(0, Ids(ps));
    assert ps[i] in ps;
  }

  lemma PositionInRange(xs: seq<int>, j: nat)
    requires GoodPositions(xs) && j < |xs|
    ensures 0 <= xs[j] <= INT_MAX
  {
    AscendingOrder(-1, xs);
  }

  method AppendPlain(v: int, buf: Buffer, ghost done: seq<int>) returns (ghost done': seq<int>)
    requires buf.Valid() && buf.bit == 0 && 0 <= v <= INT_MAX
    requires InRange(done) && buf.Bits() == BytesBits(IntsBytes(done))
    modifies buf, buf.data
    ensures buf.Valid() && (buf.data == old(buf.data) || fresh(buf.data))
    ensures buf.bit == 0
    ensures done' == done + [v] && InRange(done') && buf.Bits() == BytesBits(IntsBytes(done'))
  {
    hide BytesBits, IntBytes;
    buf.AppendInt(v);
    done' := done + [v];
    IntsBytesConcat(done, [v]);
    assert IntsBytes([v]) == IntBytes(v);
    BytesBitsConcat(IntsBytes(done), IntBytes(v));
  }

  /** decode_postings_none on any input that it can read without leaving it. */
  method DecodePostingsNone(data: seq<bv8>) returns (ps: seq<Posting>)
    requires FormRead(CompressNone, data).Some?
    ensures ps == FormRead(CompressNone, data).value
  {
    ghost var all := FormRead(CompressNone, data).value;
    var xs := ReadInts(data);
    ps := [];
    var p := 0;
    assert xs[0..] == xs && PlainRead([]) == Some([]);
    hide PlainRead, FormRead;
    while p < |xs|
      invariant 0 <= p <= |xs|
      invariant PlainRead(xs[p..]).Some? && ps + PlainRead(xs[p..]).value == all
    {
      var posting, next := ReadPlainPosting(xs, p);
      Assoc(ps, [posting], PlainRead(xs[next..]).value);
      ps, p := ps + [posting], next;
    }
    assert xs[p..] == [] && ps + [] == ps;
  }

  /** One round of the outer loop of decode_postings_none. */
  method ReadPlainPosting(xs: seq<int>, p: nat) returns (posting: Posting, next: nat)
    requires p < |xs| && PlainRead(xs[p..]).Some?
    ensures p < next <= |xs| && PlainRead(xs[next..]).Some?
    ensures PlainRead(xs[p..]).value == [posting] + PlainRead(xs[next..]).value
  {
    hide PlainRead;
    PlainReadStep(xs, p);
    var documentId, count := xs[p], xs[p + 1];
    var positions := ReadPlainPositions(xs, p + 2, count);
    posting, next := Posting(documentId, positions, count), p + 2 + |positions|;
  }

  lemma PlainReadStep(xs: seq<int>, p: nat)
    requires p < |xs| && PlainRead(xs[p..]).Some?
    ensures p + 2 <= |xs|
    ensures var n := if xs[p + 1] < 0 then 0 else xs[p + 1];
            && p + 2 + n <= |xs| && PlainRead(xs[p + 2 + n..]).Some?
            && PlainRead(xs[p..]).value
               == [Posting(xs[p], xs[p + 2..p + 2 + n], xs[p + 1])] + PlainRead(xs[p + 2 + n..]).value
  {
    hide PlainRead;
    PlainReadFirst(xs[p..]);
    var n := if xs[p + 1] < 0 then 0 else xs[p + 1];
    assert xs[p..][2 + n..] == xs[p + 2 + n..];
    assert xs[p..][2..2 + n] == xs[p + 2..p + 2 + n];
  }

  lemma PlainReadFirst(ys: seq<int>)
    requires ys != [] && PlainRead(ys).Some?
    ensures |ys| >= 2
    ensures var n := if ys[1] < 0 then 0 else ys[1];
            && 2 + n <= |ys| && PlainRead(ys[2 + n..]).Some?
            && PlainRead(ys).value == [Posting(ys[0], ys[2..2 + n], ys[1])] + PlainRead(ys[2 + n..]).value
  {
  }

  method ReadPlainPositions(xs: seq<int>, p: nat, count: int) returns (positions: seq<int>)
    requires p <= |xs| && p + count <= |xs|
    ensures positions == xs[p..if count < 0 then p else p + count]
  {
    positions := [];
    var i := 0;
    while i < count
      invariant 0 <= i && (if count < 0 then i == 0 else i <= count)
      invariant positions == xs[p..p + i]
    {
      positions := positions + [xs[p + i]];
      i := i + 1;
    }
  }

  /** `(const int *)postings_e`. */
  method ReadInts(data: seq<bv8>) returns (xs: seq<int>)
    requires IntsOf(data).Some?
    ensures xs == IntsOf(data).value
  {
    hide IntOf;
    xs := [];
    var p := 0;
    while p < |data|
      invariant 0 <= p <= |data|
      invariant IntsOf(data[p..]).Some? && xs + IntsOf(data[p..]).value == IntsOf(data).value
    {
      assert data[p..][..4] == data[p..p + 4] && data[p..][4..] == data[p + 4..];
      ghost var before := xs;
      xs := xs + [IntOf(data[p..p + 4])];
      Assoc(before, [IntOf(data[p..p + 4])], IntsOf(data[p + 4..]).value);
      p := p + 4;
    }
  }

  // ---------------------------------------------------------------------------
  // Either form
  // ---------------------------------------------------------------------------

  /** encode_postings: what is written reads back as the list it came from, in either form. */
  method EncodePostings(how: CompressMethod, documentsCount: int, ps: seq<Posting>) returns (data: seq<bv8>)
    requires GoodPostings(ps) && GoodCount(documentsCount, ps)
    requires ps != [] && forall p :: p in ps ==> p.positions != []
    ensures data != [] && FormRead(how, data) == Some(ps)
    ensures how == CompressNone ==> |data| == 4 * CountInts(ps)
    ensures how == CompressGolomb ==> GapStored(documentsCount, |ps|, data)
    ensures how == CompressGolomb && Last(0, Ids(ps)) <= documentsCount ==> 8 * |data| < FormLimit(documentsCount, ps)
  {
    hide *;
    var buf := new Buffer();
    match how
    case CompressNone =>
      EncodePostingsNone(ps, buf);
      data := buf.Contents();
      NoneReadsBack(ps, data);
    case CompressGolomb =>
      EncodePostingsGolomb(documentsCount, ps, buf);
      data := buf.Contents();
      GolombReadsBack(documentsCount, ps, data);
  }

  /** Two `int`s for every posting and one for every position. */
  function CountInts(ps: seq<Posting>): (n: nat)
  {
    if ps == [] then 0 else CountInts(ps[1..]) + 2 + |ps[0].positions|
  }

  lemma {:induction false} PlainCount(ps: seq<Posting>)
    ensures |PlainInts(ps)| == CountInts(ps)
  {
    if ps != [] {
      PlainCount(ps[1..]);
    }
  }

  /** The mean gap between `n` documents of `documentsCount` stands behind the count of the list. */
  ghost predicate GapStored(documentsCount: int, n: int, data: seq<bv8>)
  {
    IntAt(data, 0) == Some(n) && exists m :: IntAt(data, 32) == Some(m) && IsQuotient(m, documentsCount, n)
  }

  lemma NoneReadsBack(ps: seq<Posting>, data: seq<bv8>)
    requires GoodPostings(ps) && ps != [] && InRange(PlainInts(ps))
    requires BytesBits(data) == BytesBits(IntsBytes(PlainInts(ps)))
    ensures data != [] && FormRead(CompressNone, data) == Some(ps) && |data| == 4 * CountInts(ps)
  {
    assert Counted(ps);
    PlainCount(ps);
    hide BytesBits, CountInts, PlainInts, IntsBytes, PlainRead, GoodPostings;
    BytesBitsInjective(data, IntsBytes(PlainInts(ps)));
    IntsRoundTrip(PlainInts(ps));
    PlainRoundTrip(ps);
    PlainNonEmpty(ps);
  }

  lemma GolombReadsBack(documentsCount: int, ps: seq<Posting>, data: seq<bv8>)
    requires GoodPostings(ps) && GoodCount(documentsCount, ps)
    requires ps != [] && forall p :: p in ps ==> p.positions != []
    requires BytesBits(data) == GolombForm(documentsCount, ps)
    ensures data != [] && FormRead(CompressGolomb, data) == Some(ps) && GapStored(documentsCount, |ps|, data)
    ensures Last(0, Ids(ps)) <= documentsCount ==> 8 * |data| < FormLimit(documentsCount, ps)
  {
    hide BytesBits, GolombForm, GoodPostings, GoodCount, GolombFormRead, FormLimit, Ids, Last, IntAt, IsQuotient;
    GolombFormRoundTrip(documentsCount, ps, data);
    var m := DocumentsHeader(documentsCount, ps, data);
    if Last(0, Ids(ps)) <= documentsCount {
      FormBound(documentsCount, ps);
    }
    NothingToRead();
  }

  lemma NothingToRead()
    ensures GolombFormRead([]) == None
  {
  }

  lemma PlainNonEmpty(ps: seq<Posting>)
    requires ps != []
    ensures PlainInts(ps) != []
  {
  }

  /** decode_postings. */
  method DecodePostings(how: CompressMethod, data: seq<bv8>) returns (ps: seq<Posting>)
    requires FormRead(how, data).Some?
    ensures ps == FormRead(how, data).value
  {
    match how
    case CompressNone =>
      ps := DecodePostingsNone(data);
    case CompressGolomb =>
      ps := DecodePostingsGolomb(data);
  }
}
