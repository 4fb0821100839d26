/** Numbers below 256 as bytes. */
module ByteValue {
  lemma RoundTrip(d: int)
    requires 0 <= d < 256
    ensures (d as bv8) as int == d
  {
  }
}

/**
 The growable bit buffer of util.c (`buffer`, `append_buffer`, `append_buffer_bit`) and the
 bit cursor with which postings.c reads it back (`read_bit`).

 A byte is a `bv8`; bit 0 of a byte is its most significant bit, as in the source.
 */
module BitBuffer {
  import ByteValue

  const BUFFER_INIT_MIN := 32

  // ---------------------------------------------------------------------------
  // Bytes as bits
  // ---------------------------------------------------------------------------

  /** `1 << (7 - k)`. */
  function Mask(k: nat): bv8
    requires k < 8
  {
    if k == 0 then 0x80 else if k == 1 then 0x40 else if k == 2 then 0x20 else if k == 3 then 0x10
    else if k == 4 then 0x08 else if k == 5 then 0x04 else if k == 6 then 0x02 else 0x01
  }

  predicate BitOf(x: bv8, k: nat)
    requires k < 8
  {
    x & Mask(k) != 0
  }

  function Place(b: bool, value: int): (v: int)
  {
    if b then value else 0
  }

  /** Bit 0 is the most significant one: a byte is the sum of the values of its bits. */
  lemma BitsOfByte(x: bv8)
    ensures x as int
            == Place(BitOf(x, 0), 0x80) + Place(BitOf(x, 1), 0x40) + Place(BitOf(x, 2), 0x20) + Place(BitOf(x, 3), 0x10)
               + Place(BitOf(x, 4), 0x08) + Place(BitOf(x, 5), 0x04) + Place(BitOf(x, 6), 0x02)
               + Place(BitOf(x, 7), 0x01)
  {
    TopBits(x);
    LowBits(x & 0x0f);
    LowerHalf(x);
  }

  lemma TopBits(x: bv8)
    ensures x as int == Place(x & 0x80 != 0, 0x80) + Place(x & 0x40 != 0, 0x40) + Place(x & 0x20 != 0, 0x20)
                        + Place(x & 0x10 != 0, 0x10) + (x & 0x0f) as int
  {
  }

  lemma LowBits(x: bv8)
    requires x < 0x10
    ensures x as int == Place(x & 0x08 != 0, 0x08) + Place(x & 0x04 != 0, 0x04) + Place(x & 0x02 != 0, 0x02)
                        + Place(x & 0x01 != 0, 0x01)
  {
  }

  lemma LowerHalf(x: bv8)
    ensures x & 0x0f < 0x10
    ensures (x & 0x0f) & 0x08 == x & 0x08 && (x & 0x0f) & 0x04 == x & 0x04
    ensures (x & 0x0f) & 0x02 == x & 0x02 && (x & 0x0f) & 0x01 == x & 0x01
  {
  }

  lemma OrSetsOneBit(x: bv8, k: nat, j: nat)
    requires k < 8 && j < 8
    ensures BitOf(x | Mask(k), j) <==> (j == k || BitOf(x, j))
  {
  }

  lemma ByteFromBits(x: bv8, y: bv8)
    requires forall k: nat :: k < 8 ==> BitOf(x, k) == BitOf(y, k)
    ensures x == y
  {
    assert BitOf(x, 0) == BitOf(y, 0) && BitOf(x, 1) == BitOf(y, 1);
    assert BitOf(x, 2) == BitOf(y, 2) && BitOf(x, 3) == BitOf(y, 3);
    assert BitOf(x, 4) == BitOf(y, 4) && BitOf(x, 5) == BitOf(y, 5);
    assert BitOf(x, 6) == BitOf(y, 6) && BitOf(x, 7) == BitOf(y, 7);
  }

  /** All bits of a byte sequence, in reading order. */
  function BytesBits(s: seq<bv8>): (r: seq<bool>)
    ensures |r| == 8 * |s|
  {
    seq(8 * |s|, i requires 0 <= i < 8 * |s| => BitOf(s[i / 8], i % 8))
  }

  /** Reading order is byte by byte, and within a byte from the most significant bit down. */
  lemma ByteInOrder(s: seq<bv8>, p: nat)
    requires p < |s|
    ensures var bits, i := BytesBits(s), 8 * p;
            s[p] as int
            == Place(bits[i], 0x80) + Place(bits[i + 1], 0x40) + Place(bits[i + 2], 0x20) + Place(bits[i + 3], 0x10)
               + Place(bits[i + 4], 0x08) + Place(bits[i + 5], 0x04) + Place(bits[i + 6], 0x02)
               + Place(bits[i + 7], 0x01)
  {
    hide *;
    BitsOfByte(s[p]);
    BitAt(s, p, 0);
    BitAt(s, p, 1);
    BitAt(s, p, 2);
    BitAt(s, p, 3);
    BitAt(s, p, 4);
    BitAt(s, p, 5);
    BitAt(s, p, 6);
    BitAt(s, p, 7);
  }

  lemma BitAt(s: seq<bv8>, p: nat, k: nat)
    requires p < |s| && k < 8
    ensures BytesBits(s)[8 * p + k] == BitOf(s[p], k)
  {
    hide BitOf;
    assert (8 * p + k) / 8 == p && (8 * p + k) % 8 == k;
  }

  lemma BytesBitsConcat(s: seq<bv8>, t: seq<bv8>)
    ensures BytesBits(s + t) == BytesBits(s) + BytesBits(t)
  {
    forall i | 0 <= i < 8 * |s + t|
      ensures BytesBits(s + t)[i] == (BytesBits(s) + BytesBits(t))[i]
    {
      if i >= 8 * |s| {
        assert (i - 8 * |s|) / 8 == i / 8 - |s| && (i - 8 * |s|) % 8 == i % 8;
      }
    }
  }

  lemma BytesBitsSlice(s: seq<bv8>, p: nat, q: nat)
    requires p <= q <= |s|
    ensures BytesBits(s)[8 * p..8 * q] == BytesBits(s[p..q])
  {
    forall i | 0 <= i < 8 * (q - p)
      ensures BytesBits(s)[8 * p + i] == BytesBits(s[p..q])[i]
    {
      assert (8 * p + i) / 8 == p + i / 8 && (8 * p + i) % 8 == i % 8;
    }
  }

  lemma {:induction false} BytesBitsInjective(s: seq<bv8>, t: seq<bv8>)
    requires BytesBits(s) == BytesBits(t)
    ensures s == t
  {
    assert |s| == |t|;
    forall i | 0 <= i < |s|
      ensures s[i] == t[i]
    {
      forall k: nat | k < 8
        ensures BitOf(s[i], k) == BitOf(t[i], k)
      {
        assert (8 * i + k) / 8 == i && (8 * i + k) % 8 == k;
        assert BytesBits(s)[8 * i + k] == BytesBits(t)[8 * i + k];
      }
      ByteFromBits(s[i], t[i]);
    }
  }

  // ---------------------------------------------------------------------------
  // Padding to a byte boundary
  // ---------------------------------------------------------------------------

  function Zeros(n: nat): (r: seq<bool>)
    ensures |r| == n
  {
    seq(n, _ => false)
  }

  /** Number of zero bits needed to reach the next byte boundary. */
  function Slack(n: nat): (r: nat)
    ensures r < 8 && (n + r) % 8 == 0
  {
    (8 - n % 8) % 8
  }

  function Pad(s: seq<bool>): (r: seq<bool>)
    ensures |r| % 8 == 0 && |s| <= |r| < |s| + 8 && s <= r
    ensures |s| % 8 == 0 ==> r == s
    ensures forall k :: |s| <= k < |r| ==> !r[k]
  {
    s + Zeros(Slack(|s|))
  }

  lemma PadAligned(a: seq<bool>, s: seq<bool>)
    requires |a| % 8 == 0
    ensures Pad(a + s) == a + Pad(s)
  {
    assert (|a| + |s|) % 8 == |s| % 8;
  }

  // ---------------------------------------------------------------------------
  // Four-byte integers, least significant byte first
  // ---------------------------------------------------------------------------

  const INT_MAX := 0x7fff_ffff

  function IntBytes(v: int): (r: seq<bv8>)
    requires 0 <= v <= INT_MAX
    ensures |r| == 4
  {
    [(v % 256) as bv8, (v / 0x100 % 256) as bv8, (v / 0x1_0000 % 256) as bv8, (v / 0x100_0000 % 256) as bv8]
  }

  /** The value of an `int` read from four bytes, in two's complement. */
  function IntOf(s: seq<bv8>): (v: int)
    requires |s| == 4
    ensures -0x8000_0000 <= v <= INT_MAX
  {
    var u := s[0] as int + 0x100 * s[1] as int + 0x1_0000 * s[2] as int + 0x100_0000 * s[3] as int;
    if u <= INT_MAX then u else u - 0x1_0000_0000
  }

  lemma IntRoundTrip(v: int)
    requires 0 <= v <= INT_MAX
    ensures IntOf(IntBytes(v)) == v
  {
    var s := IntBytes(v);
    var d0, d1, d2, d3 := v % 256, v / 0x100 % 256, v / 0x1_0000 % 256, v / 0x100_0000 % 256;
    assert s[0] as int == d0 by { ByteValue.RoundTrip(d0); }
    assert s[1] as int == d1 by { ByteValue.RoundTrip(d1); }
    assert s[2] as int == d2 by { ByteValue.RoundTrip(d2); }
    assert s[3] as int == d3 by { ByteValue.RoundTrip(d3); }
    Digits(v);
  }

  /** The least significant byte comes first. */
  lemma IntInOrder(v: int)
    requires 0 <= v <= INT_MAX
    ensures var s := IntBytes(v);
            v == s[0] as int + 0x100 * s[1] as int + 0x1_0000 * s[2] as int + 0x100_0000 * s[3] as int
  {
    IntRoundTrip(v);
    assert IntOf(IntBytes(v)) >= 0;
  }

  /** An `int` is negative exactly when the top bit of its last byte is set. */
  lemma IntSign(s: seq<bv8>)
    requires |s| == 4
    ensures var u := s[0] as int + 0x100 * s[1] as int + 0x1_0000 * s[2] as int + 0x100_0000 * s[3] as int;
            IntOf(s) == if s[3] >= 0x80 then u - 0x1_0000_0000 else u
  {
    assert s[3] >= 0x80 <==> s[3] as int >= 0x80;
  }

  lemma Digits(v: int)
    requires 0 <= v <= INT_MAX
    ensures v == v % 256 + 0x100 * (v / 0x100 % 256) + 0x1_0000 * (v / 0x1_0000 % 256)
            + 0x100_0000 * (v / 0x100_0000 % 256)
  {
    assert v / 0x1_0000 == v / 0x100 / 0x100;
    assert v / 0x100_0000 == v / 0x1_0000 / 0x100;
  }

  function IntBits(v: int): (r: seq<bool>)
    requires 0 <= v <= INT_MAX
    ensures |r| == 32
  {
    BytesBits(IntBytes(v))
  }

  // ---------------------------------------------------------------------------
  // Writing
  // ---------------------------------------------------------------------------

  class Buffer {
    var data: array<bv8>  // head .. tail
    var curr: nat         // curr - head
    var bit: nat          // bits already used in data[curr]

    ghost predicate Valid()
      reads this, data
    {
      && BUFFER_INIT_MIN <= data.Length
      && curr <= data.Length
      && bit < 8
      && (bit > 0 ==> curr < data.Length)
      && (bit > 0 ==> forall k: nat :: bit <= k < 8 ==> !BitOf(data[curr], k))
    }

    /** Everything appended so far. */
    ghost function Bits(): (r: seq<bool>)
      requires Valid()
      reads this, data
      ensures |r| == 8 * curr + bit
    {
      BytesBits(data[..])[..8 * curr + bit]
    }

    /** The finished bytes, BUFFER_PTR and BUFFER_SIZE of the source. */
    ghost function Bytes(): (r: seq<bv8>)
      requires Valid()
      reads this, data
    {
      data[..curr]
    }

    constructor ()
      ensures Valid() && fresh(data) && Bits() == []
      ensures data.Length == 32
    {
      data := new bv8[BUFFER_INIT_MIN];
      curr, bit := 0, 0;
    }

    method Enlarge()
      requires Valid()
      modifies this
      ensures Valid() && fresh(data) && data.Length == 2 * old(data.Length)
      ensures curr == old(curr) && bit == old(bit)
      ensures data[..old(data.Length)] == old(data[..])
      ensures Bits() == old(Bits())
    {
      var d := new bv8[2 * data.Length];
      for i := 0 to data.Length
        invariant data == old(data) && curr == old(curr) && bit == old(bit) && Valid()
        invariant data[..] == old(data[..])
        invariant forall j :: 0 <= j < i ==> d[j] == data[j]
      {
        d[i] := data[i];
      }
      assert d[..data.Length] == data[..];
      AlignedBits(d[..], data.Length);
      data := d;
    }

    /** Bytes in use once a partly used byte counts as a whole one. */
    ghost function Used(): (n: nat)
      reads this
    {
      if bit == 0 then curr else curr + 1
    }

    /**
     append_buffer with `bytes` in place of a pointer and a size; `[]` only realigns. The source enlarges the
     buffer at most once, so the chunk has to fit into twice the capacity.
     */
    method Append(bytes: seq<bv8>)
      requires Valid() && Used() + |bytes| <= 2 * data.Length
      modifies this, data
      ensures Valid() && (data == old(data) || fresh(data))
      ensures data.Length == if old(Used()) + |bytes| > old(data.Length) then 2 * old(data.Length) else old(data.Length)
      ensures bit == 0
      ensures Bits() == Pad(old(Bits())) + BytesBits(bytes)
    {
      if bit != 0 {
        PartialByte();
        curr, bit := curr + 1, 0;
      }
      assert Bits() == Pad(old(Bits()));
      if curr + |bytes| > data.Length {
        Enlarge();
      }
      Copy(bytes);
    }

    /** The `memcpy` of append_buffer. */
    method Copy(bytes: seq<bv8>)
      requires Valid() && bit == 0 && curr + |bytes| <= data.Length
      modifies this`curr, data
      ensures Valid()
      ensures Bits() == old(Bits()) + BytesBits(bytes)
    {
      for i := 0 to |bytes|
        invariant Valid() && curr == old(curr) + i
        invariant data[..curr] == old(data[..curr]) + bytes[..i]
      {
        data[curr] := bytes[i];
        curr := curr + 1;
        assert data[..curr] == old(data[..curr]) + bytes[..i] + [bytes[i]];
        assert bytes[..i + 1] == bytes[..i] + [bytes[i]];
      }
      assert bytes[..|bytes|] == bytes;
      BytesBitsConcat(old(data[..curr]), bytes);
      AlignedBits(data[..], curr);
      AlignedBits(old(data[..]), old(curr));
      assert data[..][..curr] == data[..curr];
      assert old(data[..])[..old(curr)] == old(data[..curr]);
    }

    lemma AlignedBits(s: seq<bv8>, n: nat)
      requires n <= |s|
      ensures BytesBits(s)[..8 * n] == BytesBits(s[..n])
    {
      BytesBitsSlice(s, 0, n);
      assert s[0..n] == s[..n];
    }

    /** The rest of a partly used byte reads as zero padding. */
    lemma PartialByte()
      requires Valid() && bit > 0
      ensures BytesBits(data[..])[..8 * (curr + 1)] == Pad(Bits())
    {
      var all := BytesBits(data[..]);
      assert Slack(8 * curr + bit) == 8 - bit;
      forall i | 8 * curr + bit <= i < 8 * (curr + 1)
        ensures !all[i]
      {
        assert i / 8 == curr && i % 8 >= bit;
      }
    }

    /** append_buffer_bit. */
    method AppendBit(b: bool)
      requires Valid()
      modifies this, data
      ensures Valid() && (data == old(data) || fresh(data))
      ensures data.Length == if old(curr) == old(data.Length) then 2 * old(data.Length) else old(data.Length)
      ensures Bits() == old(Bits()) + [b]
      ensures old(bit) == 0 ==> data[old(curr)] == if b then 0x80 else 0
    {
      if curr >= data.Length {
        Enlarge();
      }
      WriteBit(b);
    }

    /** The part of append_buffer_bit that runs once there is room. */
    method WriteBit(b: bool)
      requires Valid() && curr < data.Length
      modifies this`curr, this`bit, data
      ensures Valid()
      ensures Bits() == old(Bits()) + [b]
      ensures old(bit) == 0 ==> data[old(curr)] == if b then 0x80 else 0
    {
      hide BitOf, Mask, BytesBits;
      ghost var was := data[..];
      StartedByte(b);
      if bit == 0 {
        data[curr] := 0;
      }
      if b {
        data[curr] := data[curr] | Mask(bit);
      }
      ClearedBits(was[curr], bit, b, data[curr]);
      BitsAfterUpdate(was, curr, bit, data[..]);
      bit := bit + 1;
      if bit == 8 {
        curr, bit := curr + 1, 0;
      }
    }

    lemma StartedByte(b: bool)
      ensures (if b then 0 | Mask(0) else 0) == if b then 0x80 else 0
    {
    }

    /** Changing byte `p` from its bit `k` on changes one bit of the first `8 * p + k + 1`. */
    lemma BitsAfterUpdate(s: seq<bv8>, p: nat, k: nat, t: seq<bv8>)
      requires p < |s| == |t| && k < 8
      requires forall i :: 0 <= i < p ==> t[i] == s[i]
      requires forall j: nat :: j < k ==> BitOf(t[p], j) == BitOf(s[p], j)
      ensures BytesBits(t)[..8 * p + k + 1] == BytesBits(s)[..8 * p + k] + [BitOf(t[p], k)]
    {
      forall i | 0 <= i < 8 * p + k
        ensures BytesBits(t)[i] == BytesBits(s)[i]
      {
        assert i / 8 < p || (i / 8 == p && i % 8 < k);
      }
      assert (8 * p + k) / 8 == p && (8 * p + k) % 8 == k;
    }

    lemma ClearedBits(x: bv8, k: nat, b: bool, y: bv8)
      requires k < 8
      requires k > 0 ==> forall j: nat :: k <= j < 8 ==> !BitOf(x, j)
      requires var z: bv8 := if k == 0 then 0 else x; y == if b then z | Mask(k) else z
      ensures forall j: nat :: j < k ==> BitOf(y, j) == BitOf(x, j)
      ensures BitOf(y, k) == b
      ensures forall j: nat :: k < j < 8 ==> !BitOf(y, j)
    {
      var z: bv8 := if k == 0 then 0 else x;
      forall j: nat | j < 8
        ensures BitOf(y, j) == (if j < k then BitOf(x, j) else j == k && b)
      {
        OrSetsOneBit(z, k, j);
        assert BitOf(z, j) == (j < k && BitOf(x, j));
      }
    }

    /** `append_buffer(buf, &v, sizeof(int))`. */
    method AppendInt(v: int)
      requires Valid() && 0 <= v <= INT_MAX
      modifies this, data
      ensures Valid() && (data == old(data) || fresh(data))
      ensures bit == 0
      ensures Bits() == Pad(old(Bits())) + IntBits(v)
    {
      Append(IntBytes(v));
    }

    /** BUFFER_PTR and BUFFER_SIZE: the finished bytes of an aligned buffer are its bits. */
    method Contents() returns (r: seq<bv8>)
      requires Valid() && bit == 0
      ensures r == Bytes() && BytesBits(r) == Bits()
    {
      r := data[..curr];
      AlignedBits(data[..], curr);
      assert data[..][..curr] == r;
    }
  }

  // ---------------------------------------------------------------------------
  // Reading
  // ---------------------------------------------------------------------------

  /** `*buf`, `buf_end` and `*bit` of read_bit. */
  class BitReader {
    const data: seq<bv8>
    var pos: nat
    var mask: bv8

    ghost const bits: seq<bool>  // all bits of `data`
    ghost var cursor: nat        // index of the next bit to read

    ghost predicate Valid()
      reads this
      ensures Valid() ==> cursor <= |bits|
    {
      && bits == BytesBits(data)
      && mask == Mask(Offset())
      && cursor == 8 * pos + Offset() <= |bits|
    }

    /** Bits already read in the byte at `pos`. */
    ghost function Offset(): (k: nat)
      reads this
      ensures k < 8
    {
      if mask == 0x80 then 0 else if mask == 0x40 then 1 else if mask == 0x20 then 2 else if mask == 0x10 then 3
      else if mask == 0x08 then 4 else if mask == 0x04 then 5 else if mask == 0x02 then 6 else 7
    }

    constructor (bytes: seq<bv8>)
      ensures Valid() && data == bytes && bits == BytesBits(bytes) && cursor == 0
    {
      data := bytes;
      pos, mask := 0, 0x80;
      bits, cursor := BytesBits(bytes), 0;
    }

    /** read_bit: the next bit, or -1 at the end of the data. */
    method ReadBit() returns (r: int)
      requires Valid()
      modifies this
      ensures Valid()
      ensures old(cursor) < |bits| ==> cursor == old(cursor) + 1 && r == (if bits[old(cursor)] then 1 else 0)
      ensures old(cursor) == |bits| ==> cursor == old(cursor) && r == -1
      ensures old(cursor) % 8 == 0 && old(cursor) < |bits| ==> r == if data[old(cursor) / 8] >= 0x80 then 1 else 0
    {
      if pos >= |data| {
        return -1;
      }
      ghost var k := Offset();
      assert (8 * pos + k) / 8 == pos && (8 * pos + k) % 8 == k;
      r := if data[pos] & mask != 0 then 1 else 0;
      mask := mask >> 1;
      if mask == 0 {
        mask := 0x80;
        pos := pos + 1;
      }
      cursor := cursor + 1;
    }

    /** Skip the rest of a partly read byte. */
    method Align()
      requires Valid()
      modifies this
      ensures Valid() && cursor == old(cursor) + Slack(old(cursor))
    {
      if mask != 0x80 {
        pos := pos + 1;
        mask := 0x80;
      }
      cursor := 8 * pos;
    }

    /** `*((int *)postings_e)` followed by `postings_e += sizeof(int)`. */
    method ReadInt() returns (v: int)
      requires Valid() && cursor % 8 == 0 && cursor / 8 + 4 <= |data|
      modifies this
      ensures Valid() && cursor == old(cursor) + 32
      ensures v == IntOf(data[old(cursor) / 8..old(cursor) / 8 + 4])
    {
      v := IntOf(data[pos..pos + 4]);
      pos := pos + 4;
      cursor := cursor + 32;
    }
  }
}
