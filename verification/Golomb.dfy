/**
 Golomb coding of one number (postings.c: `calc_golomb_params`, `golomb_encoding`,
 `golomb_decoding`): a unary quotient, then a truncated-binary remainder.
 */
module Golomb {
  import opened Wrappers
  import opened BitBuffer

  // ---------------------------------------------------------------------------
  // Arithmetic
  // ---------------------------------------------------------------------------

  function Pow2(k: nat): (r: int)
    ensures r >= 1
  {
    if k == 0 then 1 else 2 * Pow2(k - 1)
  }

  lemma {:induction false} Pow2Monotone(j: nat, k: nat)
    requires j <= k
    ensures Pow2(j) <= Pow2(k)
  {
    if j < k {
      Pow2Monotone(j, k - 1);
    }
  }

  lemma DivMod(n: int, m: int)
    requires m > 0
    ensures n == n / m * m + n % m
  {
  }

  lemma MultipleBelow(k: int, m: int, d: int)
    requires m > 0 && -m < d < m && k * m == d
    ensures k == 0
  {
    if k > 0 {
      Nonnegative(k - 1, m);
    } else if k < 0 {
      Nonnegative(-k - 1, m);
    }
  }

  lemma Nonnegative(k: int, m: int)
    requires k >= 0 && m >= 0
    ensures k * m >= 0
  {
  }

  lemma QuotientIs(n: int, m: int, q: int, r: int)
    requires m > 0 && n == q * m + r && 0 <= r < m
    ensures n / m == q && n % m == r
  {
    DivMod(n, m);
    MultipleBelow(n / m - q, m, r - n % m);
  }

  lemma DivDiv(v: nat, a: nat)
    requires a > 0
    ensures v / (2 * a) == v / 2 / a
  {
    var q, r := v / 2 / a, v / 2 % a;
    DivMod(v / 2, a);
    assert v == 2 * (q * a + r) + v % 2;
    assert v == q * (2 * a) + (2 * r + v % 2);
    QuotientIs(v, 2 * a, q, 2 * r + v % 2);
  }

  // ---------------------------------------------------------------------------
  // Parameters
  // ---------------------------------------------------------------------------

  /** The loop of calc_golomb_params, started with `*b == k`. */
  function CeilLog2(m: int, k: nat): (b: nat)
    requires m > 0
    ensures b >= k && m <= Pow2(b) && (b > k ==> Pow2(b - 1) < m)
    decreases if m <= Pow2(k) then 0 else m - Pow2(k)
  {
    if m <= Pow2(k) then k else CeilLog2(m, k + 1)
  }

  function Width(m: int): (b: nat)
    requires m > 0
    ensures m <= Pow2(b) && (b > 0 ==> Pow2(b - 1) < m)
    ensures m > 1 <==> b > 0
  {
    CeilLog2(m, 0)
  }

  function Threshold(m: int): (t: int)
    requires m > 0
    ensures 0 <= t < m
  {
    Pow2(Width(m)) - m
  }

  /** Largest `m` for which the doubling `l <<= 1` never leaves a 32-bit `int`. */
  const MAX_M := 0x4000_0000

  lemma Pow2Of30()
    ensures Pow2(30) == MAX_M && Pow2(31) == INT_MAX + 1
  {
    assert Pow2(10) == 1024;
    assert Pow2(20) == 1024 * 1024;
  }

  /** calc_golomb_params finds a power of two within `int` exactly when `m <= MAX_M`. */
  lemma ParamsFitInt(m: int)
    requires m > 0
    ensures Pow2(Width(m)) <= INT_MAX <==> m <= MAX_M
  {
    Pow2Of30();
    var b := Width(m);
    if m <= MAX_M {
      if b > 30 {
        Pow2Monotone(30, b - 1);
      }
      Pow2Monotone(b, if b > 30 then b else 30);
    } else if b <= 30 {
      Pow2Monotone(b, 30);
    } else {
      Pow2Monotone(31, b);
    }
  }

  /** calc_golomb_params. */
  method CalcGolombParams(m: int) returns (b: nat, t: int)
    requires 0 < m <= MAX_M
    ensures b == Width(m) && t == Threshold(m)
    ensures m <= Pow2(b) <= INT_MAX && (b > 0 ==> Pow2(b - 1) < m) && t == Pow2(b) - m
  {
    b := 0;
    var l := 1;
    while m > l
      invariant l == Pow2(b) && CeilLog2(m, b) == Width(m)
      decreases if m <= l then 0 else m - l
    {
      b, l := b + 1, l * 2;
    }
    t := l - m;
    ParamsFitInt(m);
  }

  // ---------------------------------------------------------------------------
  // The code of one number
  // ---------------------------------------------------------------------------

  function Ones(n: nat): (r: seq<bool>)
    ensures |r| == n
  {
    seq(n, _ => true)
  }

  /** `r & i` for a power of two `i`. */
  predicate AndBit(r: nat, i: nat)
    requires i > 0
  {
    r / i % 2 == 1
  }

  /** The low `w` bits of `v`, most significant first. */
  function BinBits(v: nat, w: nat): (r: seq<bool>)
    ensures |r| == w
  {
    if w == 0 then [] else [AndBit(v, Pow2(w - 1))] + BinBits(v, w - 1)
  }

  function RemainderBits(m: int, r: nat): (s: seq<bool>)
    requires m > 0
    ensures |s| <= Width(m)
  {
    if m == 1 then []
    else if r < Threshold(m) then BinBits(r, Width(m) - 1)
    else BinBits(r + Threshold(m), Width(m))
  }

  function GolombBits(m: int, n: nat): (s: seq<bool>)
    requires m > 0
    ensures |s| <= n / m + 1 + Width(m)
  {
    Ones(n / m) + [false] + RemainderBits(m, n % m)
  }

  lemma WidthIs(m: int, b: nat)
    requires m > 0 && m <= Pow2(b) && (b > 0 ==> Pow2(b - 1) < m)
    ensures b == Width(m)
  {
    hide CeilLog2;
    if b < Width(m) {
      Pow2Monotone(b, Width(m) - 1);
    } else if Width(m) < b {
      Pow2Monotone(Width(m), b - 1);
    }
  }

  lemma {:induction false} BinBitsAt(v: nat, w: nat, k: nat)
    requires k < w
    ensures BinBits(v, w)[k] <==> v / Pow2(w - 1 - k) % 2 == 1
    decreases w
  {
    hide Pow2;
    if k > 0 {
      BinBitsAt(v, w - 1, k - 1);
    }
  }

  /**
   The code of `n` bit by bit. With `q` and `r` the quotient and the remainder by `m`, and `b` the least width with
   `m <= 2^b`: `q` ones and a zero, then, most significant bit first, `r` in `b - 1` bits if it is below `2^b - m`,
   and `r + 2^b - m` in `b` bits otherwise.
   */
  lemma GolombCodeIs(m: int, n: nat, q: nat, r: nat, b: nat)
    requires n == q * m + r && r < m && m <= Pow2(b) && (b > 0 ==> Pow2(b - 1) < m)
    ensures var code, t := GolombBits(m, n), Pow2(b) - m;
            var (v, w) := if r < t then (r, b - 1) else (r + t, b);
            && |code| == q + 1 + w
            && (forall k :: 0 <= k < q ==> code[k])
            && !code[q]
            && (forall j :: q < j < |code| ==> (code[j] <==> v / Pow2(|code| - 1 - j) % 2 == 1))
  {
    hide CeilLog2, Pow2, RemainderBits;
    WidthIs(m, b);
    QuotientIs(n, m, q, r);
    RemainderIs(m, r, b);
    var t := Pow2(b) - m;
    var (v, w) := if r < t then (r, b - 1) else (r + t, b);
    var code := GolombBits(m, n);
    assert code == Ones(q) + [false] + BinBits(v, w);
    hide GolombBits, BinBits;
    forall j | q < j < |code|
      ensures code[j] <==> v / Pow2(|code| - 1 - j) % 2 == 1
    {
      BinBitsAt(v, w, j - q - 1);
    }
  }

  lemma RemainderIs(m: int, r: nat, b: nat)
    requires r < m && b == Width(m)
    ensures var t := Pow2(b) - m;
            && (r < t ==> b > 0)
            && RemainderBits(m, r) == if r < t then BinBits(r, b - 1) else BinBits(r + t, b)
  {
  }

  /** golomb_encoding. */
  method GolombEncoding(m: int, b: nat, t: int, n: nat, buf: Buffer)
    requires buf.Valid()
    requires m > 0 && b == Width(m) && t == Threshold(m)
    modifies buf, buf.data
    ensures buf.Valid() && (buf.data == old(buf.data) || fresh(buf.data))
    ensures buf.Bits() == old(buf.Bits()) + GolombBits(m, n)
  {
    ghost var start := buf.Bits();
    AppendOnes(n / m, buf);
    buf.AppendBit(false);
    Assoc(start, Ones(n / m), [false]);
    EncodeRemainder(m, b, t, n % m, buf);
    Assoc(start, Ones(n / m) + [false], RemainderBits(m, n % m));
  }

  /** The `n % m` part of golomb_encoding. */
  method EncodeRemainder(m: int, b: nat, t: int, r: nat, buf: Buffer)
    requires buf.Valid()
    requires m > 0 && b == Width(m) && t == Threshold(m)
    modifies buf, buf.data
    ensures buf.Valid() && (buf.data == old(buf.data) || fresh(buf.data))
    ensures buf.Bits() == old(buf.Bits()) + RemainderBits(m, r)
  {
    if m > 1 {
      if r < t {
        AppendBinary(r, b - 1, buf);
      } else {
        AppendBinary(r + t, b, buf);
      }
    }
  }

  /** `for (i = n / m; i; i--) append_buffer_bit(buf, 1);` */
  method AppendOnes(q: nat, buf: Buffer)
    requires buf.Valid()
    modifies buf, buf.data
    ensures buf.Valid() && (buf.data == old(buf.data) || fresh(buf.data))
    ensures buf.Bits() == old(buf.Bits()) + Ones(q)
  {
    var i := q;
    while i != 0
      invariant 0 <= i <= q
      invariant buf.Valid() && (buf.data == old(buf.data) || fresh(buf.data))
      invariant buf.Bits() == old(buf.Bits()) + Ones(q - i)
    {
      buf.AppendBit(true);
      assert Ones(q - i) + [true] == Ones(q - i + 1);
      i := i - 1;
    }
  }

  /** `for (i = 1 << (w - 1); i; i >>= 1) append_buffer_bit(buf, r & i);` */
  method AppendBinary(r: nat, w: nat, buf: Buffer)
    requires buf.Valid()
    modifies buf, buf.data
    ensures buf.Valid() && (buf.data == old(buf.data) || fresh(buf.data))
    ensures buf.Bits() == old(buf.Bits()) + BinBits(r, w)
  {
    var i := if w == 0 then 0 else Pow2(w - 1);
    ghost var k := w;
    while i != 0
      invariant i == (if k == 0 then 0 else Pow2(k - 1))
      invariant buf.Valid() && (buf.data == old(buf.data) || fresh(buf.data))
      invariant buf.Bits() + BinBits(r, k) == old(buf.Bits()) + BinBits(r, w)
      decreases k
    {
      ghost var before, x := buf.Bits(), AndBit(r, i);
      buf.AppendBit(AndBit(r, i));
      Assoc(before, [x], BinBits(r, k - 1));
      i := i / 2;
      k := k - 1;
    }
  }

  // ---------------------------------------------------------------------------
  // Reading one number back
  // ---------------------------------------------------------------------------

  /** Number of one-bits from `c` on, up to the first zero or the end of the data. */
  function UnaryAt(bits: seq<bool>, c: nat): (q: nat)
    requires c <= |bits|
    ensures c + q <= |bits|
    ensures forall k :: c <= k < c + q ==> bits[k]
    ensures c + q < |bits| ==> !bits[c + q]
    decreases |bits| - c
  {
    if c < |bits| && bits[c] then 1 + UnaryAt(bits, c + 1) else 0
  }

  /** `n` after `q` rounds of `n += m`. */
  function Times(q: nat, m: nat): (n: nat)
  {
    if q == 0 then 0 else Times(q - 1, m) + m
  }

  lemma {:induction false} TimesIsProduct(q: nat, m: nat)
    ensures Times(q, m) == q * m
  {
    if q > 0 {
      TimesIsProduct(q - 1, m);
    }
  }

  /** Reads up to `w` bits into `acc`; stops at the end of the data. */
  function BinaryAt(bits: seq<bool>, c: nat, w: nat, acc: nat): (r: (nat, nat))
    requires c <= |bits|
    ensures c <= r.1 <= |bits|
    decreases w
  {
    if w == 0 || c == |bits| then (acc, c)
    else BinaryAt(bits, c + 1, w - 1, 2 * acc + (if bits[c] then 1 else 0))
  }

  /** golomb_decoding: the number at bit `c` and the position after it, for every bit string. */
  function GolombAt(m: int, bits: seq<bool>, c: nat): (r: (nat, nat))
    requires m > 0 && c <= |bits|
    ensures c <= r.1 <= |bits|
  {
    var q := UnaryAt(bits, c);
    var c1 := if c + q < |bits| then c + q + 1 else c + q;
    if m == 1 then (Times(q, m), c1)
    else
      var (r, c2) := BinaryAt(bits, c1, Width(m) - 1, 0);
      if r < Threshold(m) || c2 == |bits| then (Times(q, m) + r, c2)
      else (Times(q, m) + 2 * r + (if bits[c2] then 1 else 0) - Threshold(m), c2 + 1)
  }

  /** `while (read_bit(buf, buf_end, bit) == 1) n += m;` */
  method DecodeUnary(m: int, rd: BitReader) returns (n: int)
    requires rd.Valid()
    requires m > 0
    modifies rd
    ensures rd.Valid()
    ensures var bits, c := rd.bits, old(rd.cursor);
            var q := UnaryAt(bits, c);
            n == Times(q, m) && rd.cursor == if c + q < |bits| then c + q + 1 else c + q
  {
    hide BitReader.Valid;
    n := 0;
    ghost var bits, c, q := rd.bits, rd.cursor, 0;
    var one := rd.ReadBit();
    while one == 1
      invariant rd.Valid() && c + q <= |bits|
      invariant n == Times(q, m)
      invariant UnaryAt(bits, c) == q + UnaryAt(bits, c + q)
      invariant c + q < |bits| ==> one == (if bits[c + q] then 1 else 0) && rd.cursor == c + q + 1
      invariant c + q == |bits| ==> one == -1 && rd.cursor == c + q
      decreases |bits| - c - q
    {
      n := n + m;
      q := q + 1;
      one := rd.ReadBit();
    }
  }

  /** `for (i = 0; i < w; i++) { z = read_bit(...); if (z == -1) break; r = (r << 1) | z; }` */
  method DecodeBinary(w: nat, rd: BitReader) returns (r: nat)
    requires rd.Valid()
    modifies rd
    ensures rd.Valid()
    ensures (r, rd.cursor) == BinaryAt(rd.bits, old(rd.cursor), w, 0)
  {
    hide BitReader.Valid;
    ghost var bits, c := rd.bits, rd.cursor;
    r := 0;
    var i := 0;
    while i < w
      invariant 0 <= i <= w
      invariant rd.Valid()
      invariant BinaryAt(bits, rd.cursor, w - i, r) == BinaryAt(bits, c, w, 0)
    {
      var z := rd.ReadBit();
      if z == -1 {
        break;
      }
      r := 2 * r + z;
      i := i + 1;
    }
  }

  /** golomb_decoding. */
  method GolombDecoding(m: int, b: nat, t: int, rd: BitReader) returns (n: int)
    requires rd.Valid()
    requires m > 0 && b == Width(m) && t == Threshold(m)
    modifies rd
    ensures rd.Valid()
    ensures (n, rd.cursor) == GolombAt(m, rd.bits, old(rd.cursor))
  {
    hide BitReader.Valid, UnaryAt, BinaryAt, Times, CeilLog2;
    n := DecodeUnary(m, rd);
    if m > 1 {
      var r: int := DecodeBinary(b - 1, rd);
      if r >= t {
        var z := rd.ReadBit();
        if z != -1 {
          r := 2 * r + z;
          r := r - t;
        }
      }
      n := n + r;
    }
  }

  // ---------------------------------------------------------------------------
  // The code is self-delimiting
  // ---------------------------------------------------------------------------

  /** `code` stands at bit `c` of `bits`. */
  predicate CodeAt(bits: seq<bool>, c: nat, code: seq<bool>)
  {
    c + |code| <= |bits| && bits[c..c + |code|] == code
  }

  lemma CodeAtSplit(bits: seq<bool>, c: nat, x: seq<bool>, y: seq<bool>)
    ensures CodeAt(bits, c, x + y) <==> CodeAt(bits, c, x) && CodeAt(bits, c + |x|, y)
  {
    if c + |x| + |y| <= |bits| {
      var w := bits[c..c + |x + y|];
      assert w[..|x|] == bits[c..c + |x|];
      assert w[|x|..] == bits[c + |x|..c + |x| + |y|];
      assert w == w[..|x|] + w[|x|..];
      assert (x + y)[..|x|] == x && (x + y)[|x|..] == y;
    }
  }

  lemma {:induction false} BinBitsLast(v: nat, w: nat)
    requires w > 0
    ensures BinBits(v, w) == BinBits(v / 2, w - 1) + [v % 2 == 1]
  {
    if w > 1 {
      BinBitsLast(v, w - 1);
      DivDiv(v, Pow2(w - 2));
      calc {
        BinBits(v, w);
        [AndBit(v, Pow2(w - 1))] + (BinBits(v / 2, w - 2) + [v % 2 == 1]);
        ([AndBit(v / 2, Pow2(w - 2))] + BinBits(v / 2, w - 2)) + [v % 2 == 1];
        BinBits(v / 2, w - 1) + [v % 2 == 1];
      }
    }
  }

  lemma {:induction false} BinaryAtLast(bits: seq<bool>, c: nat, w: nat, acc: nat)
    requires w > 0 && c + w <= |bits|
    decreases w
    ensures BinaryAt(bits, c, w - 1, acc).1 == c + w - 1
    ensures BinaryAt(bits, c, w, acc)
            == (2 * BinaryAt(bits, c, w - 1, acc).0 + (if bits[c + w - 1] then 1 else 0), c + w)
  {
    if w > 1 {
      BinaryAtLast(bits, c + 1, w - 1, 2 * acc + (if bits[c] then 1 else 0));
    }
  }

  /** `w` bits of a number below 2^w read back as that number. */
  lemma {:induction false} BinaryRoundTrip(bits: seq<bool>, c: nat, v: nat, w: nat)
    requires v < Pow2(w) && CodeAt(bits, c, BinBits(v, w))
    ensures BinaryAt(bits, c, w, 0) == (v, c + w)
  {
    if w > 0 {
      BinBitsLast(v, w);
      CodeAtSplit(bits, c, BinBits(v / 2, w - 1), [v % 2 == 1]);
      assert bits[c + w - 1] == [v % 2 == 1][0] by {
        assert bits[c + w - 1..c + w][0] == bits[c + w - 1];
      }
      BinaryRoundTrip(bits, c, v / 2, w - 1);
      BinaryAtLast(bits, c, w, 0);
    }
  }

  /** What the binary part reads, also where the data ends early: the number that has these bits, and how many. */
  lemma {:induction false} BinaryAtIs(bits: seq<bool>, c: nat, w: nat)
    requires c <= |bits|
    ensures var (r, c1) := BinaryAt(bits, c, w, 0);
            && c1 == (if c + w <= |bits| then c + w else |bits|)
            && r < Pow2(c1 - c) && BinBits(r, c1 - c) == bits[c..c1]
    decreases w
  {
    if w > 0 {
      BinaryAtIs(bits, c, w - 1);
      if c + w <= |bits| {
        BinaryAtLast(bits, c, w, 0);
        var (r, c1) := BinaryAt(bits, c, w - 1, 0);
        var last := if bits[c1] then 1 else 0;
        BinBitsLast(2 * r + last, w);
        assert (2 * r + last) / 2 == r && (2 * r + last) % 2 == last;
        assert bits[c..c1 + 1] == bits[c..c1] + [bits[c1]];
      } else {
        BinaryAtCut(bits, c, w, 0);
      }
    }
  }

  lemma {:induction false} BinaryAtCut(bits: seq<bool>, c: nat, w: nat, acc: nat)
    requires c <= |bits| && w > 0 && c + w > |bits|
    ensures BinaryAt(bits, c, w, acc) == BinaryAt(bits, c, w - 1, acc)
    decreases w
  {
    if c < |bits| {
      BinaryAtCut(bits, c + 1, w - 1, 2 * acc + (if bits[c] then 1 else 0));
    }
  }

  lemma {:induction false} UnaryRoundTrip(bits: seq<bool>, c: nat, q: nat)
    requires CodeAt(bits, c, Ones(q) + [false])
    ensures UnaryAt(bits, c) == q
  {
    var w := bits[c..c + q + 1];
    assert forall k :: 0 <= k < q + 1 ==> w[k] == bits[c + k];
    assert !bits[c + q] by { assert w[q] == false; }
    assert forall k :: 0 <= k < q ==> w[k];
  }

  /** Short remainders are below `t`, long ones start at `2 * t`: their prefixes never meet. */
  lemma RemainderRoundTrip(m: int, bits: seq<bool>, c: nat, r: nat)
    requires m > 1 && r < m && CodeAt(bits, c, RemainderBits(m, r))
    ensures Width(m) > 0
    ensures var (x, c') := BinaryAt(bits, c, Width(m) - 1, 0);
            if r < Threshold(m) then x == r && c' == c + |RemainderBits(m, r)|
            else x >= Threshold(m) && c' + 1 == c + |RemainderBits(m, r)| <= |bits| &&
                 2 * x + (if bits[c'] then 1 else 0) == r + Threshold(m)
  {
    var b, t := Width(m), Threshold(m);
    assert b > 0 by { assert Pow2(0) == 1; }
    assert t < Pow2(b - 1);
    if r < t {
      BinaryRoundTrip(bits, c, r, b - 1);
    } else {
      BinaryRoundTrip(bits, c, r + t, b);
      BinaryAtLast(bits, c, b, 0);
    }
  }

  /** golomb_decoding undoes golomb_encoding whatever stands before and after the code. */
  lemma GolombRoundTrip(m: int, n: nat, bits: seq<bool>, c: nat)
    requires m > 0 && CodeAt(bits, c, GolombBits(m, n))
    ensures GolombAt(m, bits, c) == (n, c + |GolombBits(m, n)|)
  {
    hide BinBits, CeilLog2, Times, BinaryAt, UnaryAt, RemainderBits;
    var u, rem := Ones(n / m) + [false], RemainderBits(m, n % m);
    CodeAtSplit(bits, c, u, rem);
    UnaryRoundTrip(bits, c, n / m);
    TimesIsProduct(n / m, m);
    DivMod(n, m);
    if m > 1 {
      RemainderRoundTrip(m, bits, c + |u|, n % m);
    }
  }

  /**
   golomb_decoding on any bits, also where they end early. With `q` ones ahead and `b` and `t` as in the code, up to
   `b - 1` bits make a number `r`; if it is below `t`, or nothing is left, it is the remainder, and otherwise one more
   bit completes it.
   */
  lemma GolombAtIs(m: int, bits: seq<bool>, c: nat, q: nat, b: nat) returns (r: nat)
    requires c + q <= |bits| && (forall k :: c <= k < c + q ==> bits[k]) && (c + q < |bits| ==> !bits[c + q])
    requires 0 < m <= Pow2(b) && (b > 0 ==> Pow2(b - 1) < m)
    ensures var t, c1 := Pow2(b) - m, if c + q < |bits| then c + q + 1 else c + q;
            if b == 0 then GolombAt(m, bits, c) == (q * m, c1)
            else
              var c2 := if c1 + (b - 1) <= |bits| then c1 + (b - 1) else |bits|;
              && r < Pow2(c2 - c1) && BinBits(r, c2 - c1) == bits[c1..c2]
              && GolombAt(m, bits, c) ==
                   if r < t || c2 == |bits| then (q * m + r, c2)
                   else (q * m + 2 * r + (if bits[c2] then 1 else 0) - t, c2 + 1)
  {
    hide CeilLog2, Pow2, BinaryAt, BinBits, Times;
    WidthIs(m, b);
    UnaryIs(bits, c, q);
    TimesIsProduct(q, m);
    var c1 := if c + q < |bits| then c + q + 1 else c + q;
    r := 0;
    if b > 0 {
      BinaryAtIs(bits, c1, b - 1);
      r := BinaryAt(bits, c1, b - 1, 0).0;
    }
  }

  lemma UnaryIs(bits: seq<bool>, c: nat, q: nat)
    requires c + q <= |bits| && (forall k :: c <= k < c + q ==> bits[k]) && (c + q < |bits| ==> !bits[c + q])
    ensures UnaryAt(bits, c) == q
  {
    hide UnaryAt;
  }
}
