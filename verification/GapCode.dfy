/**
 Gap-coded ascending lists: document ids (starting after 0) and positions (starting after -1)
 are both written as the Golomb codes of `x - previous - 1` (postings.c:320-351) and read back
 by adding up (postings.c:247-257, 282-287).
 */
module GapCode {
  import opened Wrappers
  import opened BitBuffer
  import opened Golomb

  /** `xs` is strictly ascending and starts above `prev`. */
  predicate Ascending(prev: int, xs: seq<int>)
    decreases |xs|
  {
    xs == [] || (prev < xs[0] && Ascending(xs[0], xs[1..]))
  }

  function Last(prev: int, xs: seq<int>): int
  {
    if xs == [] then prev else xs[|xs| - 1]
  }

  lemma {:induction false} AscendingOrder(prev: int, xs: seq<int>)
    requires Ascending(prev, xs)
    ensures forall i :: 0 <= i < |xs| ==> prev < xs[i]
    ensures forall i, j :: 0 <= i < j < |xs| ==> xs[i] < xs[j]
    decreases |xs|
  {
    if xs != [] {
      AscendingOrder(xs[0], xs[1..]);
      assert forall i :: 1 <= i < |xs| ==> xs[i] == xs[1..][i - 1];
    }
  }

  lemma {:induction false} OrderAscending(prev: int, xs: seq<int>)
    requires forall i :: 0 <= i < |xs| ==> prev < xs[i]
    requires forall i, j :: 0 <= i < j < |xs| ==> xs[i] < xs[j]
    ensures Ascending(prev, xs)
    decreases |xs|
  {
    if xs != [] {
      OrderAscending(xs[0], xs[1..]);
    }
  }

  lemma {:induction false} AscendingSnoc(prev: int, xs: seq<int>, x: int)
    requires Ascending(prev, xs) && Last(prev, xs) < x
    ensures Ascending(prev, xs + [x])
    decreases |xs|
  {
    if xs != [] {
      AscendingSnoc(xs[0], xs[1..], x);
      assert (xs + [x])[1..] == xs[1..] + [x];
    }
  }

  /** A strictly ascending list of `n` numbers reaches at least `prev + n`. */
  lemma {:induction false} LastBound(prev: int, xs: seq<int>)
    requires Ascending(prev, xs)
    ensures Last(prev, xs) >= prev + |xs|
    decreases |xs|
  {
    if xs != [] {
      LastBound(xs[0], xs[1..]);
      assert Last(xs[0], xs[1..]) == Last(prev, xs);
    }
  }

  // ---------------------------------------------------------------------------
  // Writing and reading a list
  // ---------------------------------------------------------------------------

  function GapBits(m: int, prev: int, xs: seq<int>): (s: seq<bool>)
    requires m > 0 && Ascending(prev, xs)
    decreases |xs|
  {
    if xs == [] then [] else GolombBits(m, xs[0] - prev - 1) + GapBits(m, xs[0], xs[1..])
  }

  /** `n` gaps read at bit `c`, added up from `prev`; the numbers and the position after them. */
  function GapsAt(m: int, bits: seq<bool>, c: nat, n: nat, prev: int): (r: (seq<int>, nat))
    requires m > 0 && c <= |bits|
    ensures |r.0| == n && c <= r.1 <= |bits|
    decreases n
  {
    if n == 0 then ([], c)
    else
      var (gap, c1) := GolombAt(m, bits, c);
      var (xs, c2) := GapsAt(m, bits, c1, n - 1, prev + gap + 1);
      ([prev + gap + 1] + xs, c2)
  }

  lemma {:induction false} GapsRoundTrip(m: int, prev: int, xs: seq<int>, bits: seq<bool>, c: nat)
    requires m > 0 && Ascending(prev, xs)
    requires CodeAt(bits, c, GapBits(m, prev, xs))
    ensures GapsAt(m, bits, c, |xs|, prev) == (xs, c + |GapBits(m, prev, xs)|)
    decreases |xs|
  {
    hide GolombBits, GolombAt;
    if xs != [] {
      var code := GolombBits(m, xs[0] - prev - 1);
      CodeAtSplit(bits, c, code, GapBits(m, xs[0], xs[1..]));
      GolombRoundTrip(m, xs[0] - prev - 1, bits, c);
      GapsRoundTrip(m, xs[0], xs[1..], bits, c + |code|);
      assert xs == [xs[0]] + xs[1..];
    }
  }

  lemma {:induction false} GapBitsSnoc(m: int, prev: int, xs: seq<int>, x: int)
    requires m > 0 && Ascending(prev, xs + [x]) && Ascending(prev, xs) && Last(prev, xs) < x
    ensures GapBits(m, prev, xs + [x]) == GapBits(m, prev, xs) + GolombBits(m, x - Last(prev, xs) - 1)
    decreases |xs|
  {
    hide GolombBits;
    if xs == [] {
      assert GapBits(m, x, []) == [];
    } else {
      assert (xs + [x])[1..] == xs[1..] + [x];
      GapBitsSnoc(m, xs[0], xs[1..], x);
      Assoc(GolombBits(m, xs[0] - prev - 1), GapBits(m, xs[0], xs[1..]), GolombBits(m, x - Last(prev, xs) - 1));
    }
  }

  lemma {:induction false} GapsAtSnoc(m: int, bits: seq<bool>, c: nat, n: nat, prev: int)
    requires m > 0 && c <= |bits|
    ensures var (xs, c1) := GapsAt(m, bits, c, n, prev);
            var (gap, c2) := GolombAt(m, bits, c1);
            GapsAt(m, bits, c, n + 1, prev) == (xs + [Last(prev, xs) + gap + 1], c2)
    decreases n
  {
    hide GolombAt;
    var (gap0, c0) := GolombAt(m, bits, c);
    if n == 0 {
      assert GapsAt(m, bits, c0, 0, prev + gap0 + 1) == ([], c0);
      assert GapsAt(m, bits, c, 0, prev) == ([], c);
      assert [] + [prev + gap0 + 1] == [prev + gap0 + 1] + [];
    } else {
      var (gap, c1) := GolombAt(m, bits, c);
      GapsAtSnoc(m, bits, c1, n - 1, prev + gap + 1);
      var (xs, c2) := GapsAt(m, bits, c1, n - 1, prev + gap + 1);
      var (gap', c3) := GolombAt(m, bits, c2);
      Assoc([prev + gap + 1], xs, [Last(prev + gap + 1, xs) + gap' + 1]);
    }
  }

  /** The loop that writes the gaps of a list. */
  method EncodeGaps(m: int, b: nat, t: int, prev: int, xs: seq<int>, buf: Buffer)
    requires buf.Valid()
    requires m > 0 && b == Width(m) && t == Threshold(m)
    requires Ascending(prev, xs)
    modifies buf, buf.data
    ensures buf.Valid() && (buf.data == old(buf.data) || fresh(buf.data))
    ensures buf.Bits() == old(buf.Bits()) + GapBits(m, prev, xs)
  {
    hide Buffer.Valid, Buffer.Bits, GolombBits, CeilLog2;
    var p := prev;
    ghost var start := buf.Bits();
    AscendingOrder(prev, xs);
    for i := 0 to |xs|
      invariant buf.Valid() && (buf.data == old(buf.data) || fresh(buf.data))
      invariant p == Last(prev, xs[..i]) && Ascending(prev, xs[..i])
      invariant buf.Bits() == start + GapBits(m, prev, xs[..i])
    {
      var gap := xs[i] - p - 1;
      assert xs[..i + 1] == xs[..i] + [xs[i]];
      AscendingSnoc(prev, xs[..i], xs[i]);
      GapBitsSnoc(m, prev, xs[..i], xs[i]);
      GolombEncoding(m, b, t, gap, buf);
      Assoc(start, GapBits(m, prev, xs[..i]), GolombBits(m, gap));
      p := xs[i];
    }
    assert xs[..|xs|] == xs;
  }

  /** The loop that reads `n` gaps back. */
  method DecodeGaps(m: int, b: nat, t: int, n: int, prev: int, rd: BitReader) returns (xs: seq<int>)
    requires rd.Valid()
    requires m > 0 && b == Width(m) && t == Threshold(m)
    modifies rd
    ensures rd.Valid()
    ensures (xs, rd.cursor) == GapsAt(m, rd.bits, old(rd.cursor), if n < 0 then 0 else n, prev)
  {
    hide BitReader.Valid, GolombAt, CeilLog2;
    xs := [];
    var p, i := prev, 0;
    ghost var c := rd.cursor;
    while i < n
      invariant 0 <= i && (n >= 0 ==> i <= n) && (n < 0 ==> i == 0)
      invariant rd.Valid()
      invariant p == Last(prev, xs)
      invariant (xs, rd.cursor) == GapsAt(m, rd.bits, c, i, prev)
    {
      GapsAtSnoc(m, rd.bits, c, i, prev);
      var gap := GolombDecoding(m, b, t, rd);
      p := p + gap + 1;
      xs := xs + [p];
      i := i + 1;
    }
  }

  // ---------------------------------------------------------------------------
  // Size
  // ---------------------------------------------------------------------------

  /** Number of unary one-bits in the code of a whole list. */
  function GapOnes(m: int, prev: int, xs: seq<int>): (k: nat)
    requires m > 0 && Ascending(prev, xs)
    decreases |xs|
  {
    if xs == [] then 0 else (xs[0] - prev - 1) / m + GapOnes(m, xs[0], xs[1..])
  }

  lemma {:induction false} OnesTimesM(m: int, prev: int, xs: seq<int>)
    requires m > 0 && Ascending(prev, xs)
    ensures m * GapOnes(m, prev, xs) <= Last(prev, xs) - prev - |xs|
    decreases |xs|
  {
    if xs == [] {
    } else {
      OnesTimesM(m, xs[0], xs[1..]);
      assert Last(xs[0], xs[1..]) == Last(prev, xs);
      var q, rest := (xs[0] - prev - 1) / m, GapOnes(m, xs[0], xs[1..]);
      DivMod(xs[0] - prev - 1, m);
      Distribute(m, q, rest);
    }
  }

  lemma Distribute(m: int, x: int, y: int)
    ensures m * (x + y) == x * m + m * y
  {
  }

  lemma {:induction false} GapBitsLength(m: int, prev: int, xs: seq<int>)
    requires m > 0 && Ascending(prev, xs)
    ensures |GapBits(m, prev, xs)| <= GapOnes(m, prev, xs) + |xs| * (Width(m) + 1)
    decreases |xs|
  {
    hide GolombBits, CeilLog2;
    if xs != [] {
      GapBitsLength(m, xs[0], xs[1..]);
      var q, w, rest := (xs[0] - prev - 1) / m, Width(m) + 1, |xs| - 1;
      assert |GolombBits(m, xs[0] - prev - 1)| <= q + w;
      assert |xs| * w == w + rest * w;
    }
  }

  /** With `m` the mean gap, the unary parts of a whole list are shorter than the list. */
  lemma SizeBound(m: int, prev: int, xs: seq<int>, top: int)
    requires m > 0 && xs != [] && Ascending(prev, xs)
    requires Last(prev, xs) <= top && m == (top - prev) / |xs|
    ensures GapOnes(m, prev, xs) < |xs|
    ensures |GapBits(m, prev, xs)| < |xs| * (Width(m) + 2)
  {
    hide GapBits, GapOnes, CeilLog2;
    OnesTimesM(m, prev, xs);
    GapBitsLength(m, prev, xs);
    var n, ones := |xs|, GapOnes(m, prev, xs);
    DivMod(top - prev, n);
    if ones >= n {
      Scale(m, n, ones);
    }
    Distribute(n, Width(m) + 1, 1);
  }

  lemma Scale(m: int, x: int, y: int)
    requires m >= 0 && x <= y
    ensures m * x <= m * y
  {
  }
}
