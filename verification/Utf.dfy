/**
 Conversion between code points and UTF-8 (util.c:130-288). Four-byte forms reach up to
 0x1fffff, beyond the limit of section 3 of RFC 3629, and surrogates are not singled out.
 */
module Utf {
  import opened Wrappers

  type CodePoint = bv32

  predicate Encodable(c: CodePoint)
  {
    c < 0x200000
  }

  predicate AllEncodable(u: seq<CodePoint>)
  {
    forall k :: 0 <= k < |u| ==> Encodable(u[k])
  }

  // ---------------------------------------------------------------------------
  // One code point
  // ---------------------------------------------------------------------------

  /** Bytes needed for a code point. */
  function CharSize(c: CodePoint): (n: nat)
    requires Encodable(c)
    ensures 1 <= n <= 4
  {
    if c < 0x80 then 1 else if c < 0x800 then 2 else if c < 0x10000 then 3 else 4
  }

  function Low(c: CodePoint): (b: bv8)
    requires c < 0x100
  {
    c as bv8
  }

  // The leading and continuation bytes, as utf32toutf8 masks and shifts them.
  function Lead2(c: CodePoint): bv8 { Low(((c & 0x7c0) >> 6) | 0xc0) }

  function Lead3(c: CodePoint): bv8 { Low(((c & 0xf000) >> 12) | 0xe0) }

  function Lead4(c: CodePoint): bv8 { Low(((c & 0x1c0000) >> 18) | 0xf0) }

  function Middle12(c: CodePoint): bv8 { Low(((c & 0x3f000) >> 12) | 0x80) }

  function Middle6(c: CodePoint): bv8 { Low(((c & 0xfc0) >> 6) | 0x80) }

  function Final(c: CodePoint): bv8 { Low((c & 0x3f) | 0x80) }

  function EncodeChar(c: CodePoint): (s: seq<bv8>)
    requires Encodable(c)
    ensures |s| == CharSize(c)
  {
    if c < 0x80 then [Low(c)]
    else if c < 0x800 then [Lead2(c), Final(c)]
    else if c < 0x10000 then [Lead3(c), Middle6(c), Final(c)]
    else [Lead4(c), Middle12(c), Middle6(c), Final(c)]
  }

  /** utf8_skip_table, and 1 for bytes below 0x80: length announced by a first byte, 0 for none. */
  function Skip(b: bv8): (n: nat)
    ensures n <= 6
  {
    if b < 0x80 then 1 else if b < 0xc0 then 0 else if b < 0xe0 then 2 else if b < 0xf0 then 3
    else if b < 0xf8 then 4 else if b < 0xfc then 5 else if b < 0xfe then 6 else 0
  }

  /** `*str & ((1 << (7 - s)) - 1)`. */
  function LeadBits(b: bv8, s: nat): (c: CodePoint)
    requires 2 <= s <= 6
  {
    var mask: bv8 :=
      if s == 2 then 0x1f else if s == 3 then 0x0f else if s == 4 then 0x07 else if s == 5 then 0x03 else 0x01;
    (b & mask) as bv32
  }

  /** `*u << 6 | (*str & 0x3f)`. */
  function Join(c: CodePoint, b: bv8): (r: CodePoint)
  {
    (c << 6) | ((b & 0x3f) as bv32)
  }

  /** The inner loop of utf8toutf32 over continuation bytes. */
  function JoinAll(c: CodePoint, s: seq<bv8>): (r: CodePoint)
    decreases |s|
  {
    if s == [] then c else JoinAll(Join(c, s[0]), s[1..])
  }

  /** The code point at the start of `s`, which holds all bytes that its first byte announces. */
  function DecodeChar(s: seq<bv8>): (c: CodePoint)
    requires s != [] && 1 <= Skip(s[0]) <= |s|
  {
    if s[0] < 0x80 then s[0] as bv32 else JoinAll(LeadBits(s[0], Skip(s[0])), s[1..Skip(s[0])])
  }

  /** A well-formed encoding of one code point, in its shortest form. */
  predicate WellFormedChar(s: seq<bv8>)
  {
    && 1 <= |s| <= 4 && Skip(s[0]) == |s|
    && (forall k :: 1 <= k < |s| ==> 0x80 <= s[k] && s[k] < 0xc0)
    && (|s| == 2 ==> DecodeChar(s) >= 0x80)
    && (|s| == 3 ==> DecodeChar(s) >= 0x800)
    && (|s| == 4 ==> DecodeChar(s) >= 0x10000)
  }

  lemma JoinTwo(c: CodePoint, x: bv8)
    ensures JoinAll(c, [x]) == Join(c, x)
  {
    assert [x][1..] == [];
  }

  lemma JoinThree(c: CodePoint, x: bv8, y: bv8)
    ensures JoinAll(c, [x, y]) == Join(Join(c, x), y)
  {
    assert [x, y][1..] == [y];
    JoinTwo(Join(c, x), y);
  }

  lemma JoinFour(c: CodePoint, x: bv8, y: bv8, z: bv8)
    ensures JoinAll(c, [x, y, z]) == Join(Join(Join(c, x), y), z)
  {
    assert [x, y, z][1..] == [y, z];
    JoinThree(Join(c, x), y, z);
  }

  // ---------------------------------------------------------------------------
  // The forms in numbers
  // ---------------------------------------------------------------------------

  /** A first byte announces as many bytes as it has leading ones: two to six of them, then a zero. */
  lemma SkipCountsOnes(b: bv8)
    ensures Skip(b) == 1 <==> b as int / 128 == 0
    ensures Skip(b) == 2 <==> b as int / 32 == 6
    ensures Skip(b) == 3 <==> b as int / 16 == 14
    ensures Skip(b) == 4 <==> b as int / 8 == 30
    ensures Skip(b) == 5 <==> b as int / 4 == 62
    ensures Skip(b) == 6 <==> b as int / 2 == 126
  {
  }

  function Value(c: CodePoint): (v: int)
  {
    c as int
  }

  /** The six bits of a continuation byte. */
  function Digit(b: bv8): (d: int)
  {
    b as int % 64
  }

  lemma JoinIs(c: CodePoint, b: bv8)
    requires c < Room(1)
    ensures Value(Join(c, b)) == 64 * Value(c) + Digit(b)
  {
    LowSix(b);
    JoinBits(c, b);
  }

  lemma JoinBits(c: bv32, b: bv8)
    requires c < 0x400_0000
    ensures ((c << 6) | ((b & 0x3f) as bv32)) as int == 64 * (c as int) + (b & 0x3f) as int
  {
  }

  lemma LowSix(b: bv8)
    ensures (b & 0x3f) as int == b as int % 64
  {
  }

  lemma LowBits(b: bv8)
    ensures (b & 0x1f) as int == b as int % 32 && (b & 0x0f) as int == b as int % 16
  {
  }

  lemma LowestBits(b: bv8)
    ensures (b & 0x07) as int == b as int % 8 && (b & 0x03) as int == b as int % 4
  {
  }

  lemma LastBit(b: bv8)
    ensures (b & 0x01) as int == b as int % 2
  {
  }

  lemma Widened(b: bv8)
    ensures (b as bv32) as int == b as int
  {
  }

  lemma LeadIs(b: bv8, s: nat)
    requires 2 <= s <= 6
    ensures LeadBits(b, s) < 0x20 && LeadBits(b, s) as int == b as int % LeadModulus(s)
  {
    LowBits(b);
    LowestBits(b);
    LastBit(b);
    LeadSmall(b, s);
    var mask: bv8 :=
      if s == 2 then 0x1f else if s == 3 then 0x0f else if s == 4 then 0x07 else if s == 5 then 0x03 else 0x01;
    Widened(b & mask);
  }

  lemma LeadSmall(b: bv8, s: nat)
    requires 2 <= s <= 6
    ensures LeadBits(b, s) < 0x20
  {
  }

  lemma LeadFits(b: bv8, s: nat)
    requires 2 <= s <= 6
    ensures LeadBits(b, s) < Room(s - 1)
  {
  }

  /** The first byte of `s` bytes has `7 - s` bits of its own. */
  function LeadModulus(s: nat): (m: int)
    requires 2 <= s <= 6
    ensures m > 0
  {
    if s == 2 then 32 else if s == 3 then 16 else if s == 4 then 8 else if s == 5 then 4 else 2
  }

  /** The number with `acc` ahead of the base-64 digits that continuation bytes hold. */
  function Digits(acc: int, s: seq<bv8>): (v: int)
    decreases |s|
  {
    if s == [] then acc else Digits(64 * acc + Digit(s[0]), s[1..])
  }

  /** Below this, `k` more digits fit into 32 bits. */
  function Room(k: nat): (limit: CodePoint)
  {
    if k <= 1 then 0x400_0000 else if k == 2 then 0x10_0000 else if k == 3 then 0x4000 else if k == 4 then 0x100 else 4
  }

  lemma JoinFits(c: CodePoint, b: bv8, k: nat)
    requires 1 <= k <= 5 && c < Room(k)
    ensures c < Room(1) && (k > 1 ==> Join(c, b) < Room(k - 1))
  {
  }

  lemma {:induction false} JoinAllIs(c: CodePoint, s: seq<bv8>)
    requires |s| <= 5 && c < Room(|s|)
    ensures Value(JoinAll(c, s)) == Digits(Value(c), s)
    decreases |s|
  {
    hide *;
    if s == [] {
      JoinNone(c);
    } else {
      var next := Join(c, s[0]);
      JoinFits(c, s[0], |s|);
      JoinIs(c, s[0]);
      if |s| > 1 {
        JoinAllIs(next, s[1..]);
      } else {
        assert s[1..] == [];
        JoinNone(next);
      }
      JoinStep(c, s);
    }
  }

  lemma JoinNone(c: CodePoint)
    ensures JoinAll(c, []) == c && Digits(Value(c), []) == Value(c)
  {
  }

  lemma JoinStep(c: CodePoint, s: seq<bv8>)
    requires s != []
    ensures JoinAll(c, s) == JoinAll(Join(c, s[0]), s[1..])
    ensures Digits(Value(c), s) == Digits(64 * Value(c) + Digit(s[0]), s[1..])
  {
    hide Join, Value, Digit;
  }

  /** What a character decodes to: the low bits of the first byte, then six bits of each other, as digits. */
  lemma DecodeCharIs(s: seq<bv8>)
    requires s != [] && 1 <= Skip(s[0]) <= |s|
    ensures DecodeChar(s) as int ==
              var k := Skip(s[0]);
              if k == 1 then s[0] as int else Digits(s[0] as int % LeadModulus(k), s[1..k])
  {
    hide LeadBits, JoinAll, Digits, Digit;
    var k := Skip(s[0]);
    if k == 1 {
      Widened(s[0]);
    } else {
      LeadIs(s[0], k);
      LeadFits(s[0], k);
      hide Room;
      JoinAllIs(LeadBits(s[0], k), s[1..k]);
    }
  }

  /** Spelled out for the two-byte form, with continuation bytes from 0x80 to 0xbf. */
  lemma DecodeTwoBytes(a: bv8, b: bv8)
    requires 0xc0 <= a as int < 0xe0 && 0x80 <= b as int < 0xc0
    ensures Skip(a) == 2 && DecodeChar([a, b]) as int == (a as int - 0xc0) * 0x40 + (b as int - 0x80)
  {
    SkipTwo(a);
    hide *;
    DecodeCharIs([a, b]);
    assert [a, b][1..2] == [b];
    LeadModuli();
    OneDigit(a as int % 32, b);
    TwoDigitsValue(a as int, b as int);
  }

  /** And for the three-byte form. */
  lemma DecodeThreeBytes(a: bv8, b: bv8, c: bv8)
    requires 0xe0 <= a as int < 0xf0 && 0x80 <= b as int < 0xc0 && 0x80 <= c as int < 0xc0
    ensures Skip(a) == 3
    ensures DecodeChar([a, b, c]) as int == (a as int - 0xe0) * 0x1000 + (b as int - 0x80) * 0x40 + (c as int - 0x80)
  {
    SkipThree(a);
    hide *;
    DecodeCharIs([a, b, c]);
    assert [a, b, c][1..3] == [b, c];
    LeadModuli();
    TwoDigits(a as int % 16, b, c);
    ThreeDigitsValue(a as int, b as int, c as int);
  }

  lemma SkipTwo(a: bv8)
    requires 0xc0 <= a as int < 0xe0
    ensures Skip(a) == 2
  {
  }

  lemma SkipThree(a: bv8)
    requires 0xe0 <= a as int < 0xf0
    ensures Skip(a) == 3
  {
  }

  lemma LeadModuli()
    ensures LeadModulus(2) == 32 && LeadModulus(3) == 16
  {
  }

  lemma TwoDigitsValue(x: int, y: int)
    requires 0xc0 <= x < 0xe0 && 0x80 <= y < 0xc0
    ensures 64 * (x % 32) + y % 64 == (x - 0xc0) * 0x40 + (y - 0x80)
  {
  }

  lemma ThreeDigitsValue(x: int, y: int, z: int)
    requires 0xe0 <= x < 0xf0 && 0x80 <= y < 0xc0 && 0x80 <= z < 0xc0
    ensures 64 * (64 * (x % 16) + y % 64) + z % 64 == (x - 0xe0) * 0x1000 + (y - 0x80) * 0x40 + (z - 0x80)
  {
  }

  lemma OneDigit(acc: int, b: bv8)
    ensures Digits(acc, [b]) == 64 * acc + b as int % 64
  {
    assert [b][1..] == [];
  }

  lemma TwoDigits(acc: int, b: bv8, c: bv8)
    ensures Digits(acc, [b, c]) == 64 * (64 * acc + b as int % 64) + c as int % 64
  {
    assert [b, c][1..] == [c];
    OneDigit(64 * acc + b as int % 64, c);
  }

  lemma Bits2(c: bv32)
    requires 0x80 <= c && c < 0x800
    ensures var a, b := Lead2(c), Final(c);
            0xc0 <= a && a < 0xe0 && 0x80 <= b && b < 0xc0 && Join(LeadBits(a, 2), b) == c
  {
  }

  lemma Bits3(c: bv32)
    requires 0x800 <= c && c < 0x10000
    ensures var a, b, d := Lead3(c), Middle6(c), Final(c);
            && 0xe0 <= a && a < 0xf0 && 0x80 <= b && b < 0xc0 && 0x80 <= d && d < 0xc0
            && Join(Join(LeadBits(a, 3), b), d) == c
  {
  }

  lemma Bits4(c: bv32)
    requires 0x10000 <= c && c < 0x200000
    ensures var a, b, d, e := Lead4(c), Middle12(c),
                              Middle6(c), Final(c);
            && 0xf0 <= a && a < 0xf8 && 0x80 <= b && b < 0xc0 && 0x80 <= d && d < 0xc0 && 0x80 <= e && e < 0xc0
            && Join(Join(Join(LeadBits(a, 4), b), d), e) == c
  {
  }

  lemma CharRoundTrip(c: CodePoint)
    requires Encodable(c)
    ensures WellFormedChar(EncodeChar(c)) && DecodeChar(EncodeChar(c)) == c
  {
    hide JoinAll, Join, LeadBits, Low, Lead2, Lead3, Lead4, Middle12, Middle6, Final;
    var s := EncodeChar(c);
    if c < 0x80 {
      Bits1(c);
    } else if c < 0x800 {
      Bits2(c);
      JoinTwo(LeadBits(s[0], 2), s[1]);
      assert s[1..2] == [s[1]];
    } else if c < 0x10000 {
      Bits3(c);
      JoinThree(LeadBits(s[0], 3), s[1], s[2]);
      assert s[1..3] == [s[1], s[2]];
    } else {
      Bits4(c);
      JoinFour(LeadBits(s[0], 4), s[1], s[2], s[3]);
      assert s[1..4] == [s[1], s[2], s[3]];
    }
  }

  /** The bytes of an encoded code point hold it as a number to base 64, most significant digit first. */
  lemma EncodedDigits(c: CodePoint)
    requires Encodable(c)
    ensures var s := EncodeChar(c);
            && Skip(s[0]) == |s|
            && c as int == if |s| == 1 then s[0] as int else Digits(s[0] as int % LeadModulus(|s|), s[1..])
  {
    CharRoundTrip(c);
    hide EncodeChar, DecodeChar, Digits;
    DecodeCharIs(EncodeChar(c));
    assert EncodeChar(c)[1..|EncodeChar(c)|] == EncodeChar(c)[1..];
  }

  lemma Bits1(c: bv32)
    requires c < 0x80
    ensures Low(c) < 0x80 && Low(c) as bv32 == c
  {
  }

  lemma Back2(a: bv8, b: bv8)
    requires 0xc0 <= a && a < 0xe0 && 0x80 <= b && b < 0xc0
    ensures var c := Join(LeadBits(a, 2), b);
            && c < 0x800
            && Lead2(c) == a && Final(c) == b
  {
  }

  lemma Back3(a: bv8, b: bv8, d: bv8)
    requires 0xe0 <= a && a < 0xf0 && 0x80 <= b && b < 0xc0 && 0x80 <= d && d < 0xc0
    ensures var c := Join(Join(LeadBits(a, 3), b), d);
            && c < 0x10000
            && Lead3(c) == a && Middle6(c) == b && Final(c) == d
  {
  }

  lemma Back4(a: bv8, b: bv8, d: bv8, e: bv8)
    requires 0xf0 <= a && a < 0xf8 && 0x80 <= b && b < 0xc0 && 0x80 <= d && d < 0xc0 && 0x80 <= e && e < 0xc0
    ensures var c := Join(Join(Join(LeadBits(a, 4), b), d), e);
            && c < 0x200000
            && Lead4(c) == a && Middle12(c) == b
            && Middle6(c) == d && Final(c) == e
  {
  }

  lemma Back1(a: bv8)
    requires a < 0x80
    ensures a as bv32 < 0x80 && Low(a as bv32) == a
  {
  }

  lemma SkipInBetween(b: bv8)
    requires 1 <= Skip(b) <= 4
    ensures Skip(b) == 1 ==> b < 0x80
    ensures Skip(b) == 2 ==> 0xc0 <= b && b < 0xe0
    ensures Skip(b) == 3 ==> 0xe0 <= b && b < 0xf0
    ensures Skip(b) == 4 ==> 0xf0 <= b && b < 0xf8
  {
  }

  lemma DecodeCharTwo(s: seq<bv8>)
    requires |s| == 2 && Skip(s[0]) == 2
    ensures DecodeChar(s) == Join(LeadBits(s[0], 2), s[1])
  {
    hide Join, LeadBits;
    JoinTwo(LeadBits(s[0], 2), s[1]);
    assert s[1..2] == [s[1]];
  }

  lemma DecodeCharThree(s: seq<bv8>)
    requires |s| == 3 && Skip(s[0]) == 3
    ensures DecodeChar(s) == Join(Join(LeadBits(s[0], 3), s[1]), s[2])
  {
    hide Join, LeadBits;
    JoinThree(LeadBits(s[0], 3), s[1], s[2]);
    assert s[1..3] == [s[1], s[2]];
  }

  lemma DecodeCharFour(s: seq<bv8>)
    requires |s| == 4 && Skip(s[0]) == 4
    ensures DecodeChar(s) == Join(Join(Join(LeadBits(s[0], 4), s[1]), s[2]), s[3])
  {
    hide Join, LeadBits;
    JoinFour(LeadBits(s[0], 4), s[1], s[2], s[3]);
    assert s[1..4] == [s[1], s[2], s[3]];
  }

  /** Every well-formed character is the encoding of the code point it decodes to. */
  lemma CharRoundTripBack(s: seq<bv8>)
    requires WellFormedChar(s)
    ensures Encodable(DecodeChar(s)) && EncodeChar(DecodeChar(s)) == s
  {
    SkipInBetween(s[0]);
    if |s| == 1 {
      BackOne(s);
    } else if |s| == 2 {
      BackTwo(s);
    } else if |s| == 3 {
      BackThree(s);
    } else {
      BackFour(s);
    }
  }

  lemma BackOne(s: seq<bv8>)
    requires |s| == 1 && s[0] < 0x80
    ensures Encodable(DecodeChar(s)) && EncodeChar(DecodeChar(s)) == s
  {
    hide Low, Lead2, Lead3, Lead4, Middle12, Middle6, Final;
    Back1(s[0]);
  }

  lemma BackTwo(s: seq<bv8>)
    requires |s| == 2 && WellFormedChar(s) && 0xc0 <= s[0] && s[0] < 0xe0
    ensures Encodable(DecodeChar(s)) && EncodeChar(DecodeChar(s)) == s
  {
    DecodeCharTwo(s);
    hide JoinAll, Join, LeadBits, Low, Skip, DecodeChar, Lead2, Lead3, Lead4, Middle12, Middle6, Final;
    Back2(s[0], s[1]);
  }

  lemma BackThree(s: seq<bv8>)
    requires |s| == 3 && WellFormedChar(s) && 0xe0 <= s[0] && s[0] < 0xf0
    ensures Encodable(DecodeChar(s)) && EncodeChar(DecodeChar(s)) == s
  {
    DecodeCharThree(s);
    hide JoinAll, Join, LeadBits, Low, Skip, DecodeChar, Lead2, Lead3, Lead4, Middle12, Middle6, Final;
    Back3(s[0], s[1], s[2]);
  }

  lemma BackFour(s: seq<bv8>)
    requires |s| == 4 && WellFormedChar(s) && 0xf0 <= s[0] && s[0] < 0xf8
    ensures Encodable(DecodeChar(s)) && EncodeChar(DecodeChar(s)) == s
  {
    DecodeCharFour(s);
    hide JoinAll, Join, LeadBits, Low, Skip, DecodeChar, Lead2, Lead3, Lead4, Middle12, Middle6, Final;
    Back4(s[0], s[1], s[2], s[3]);
  }

  // ---------------------------------------------------------------------------
  // Strings
  // ---------------------------------------------------------------------------

  function Encode(u: seq<CodePoint>): (s: seq<bv8>)
    requires AllEncodable(u)
  {
    if u == [] then [] else EncodeChar(u[0]) + Encode(u[1..])
  }

  /** No character announces more bytes than are left; a byte that announces none stops the conversion before. */
  predicate Complete(s: seq<bv8>)
    decreases |s|
  {
    s == [] || Skip(s[0]) == 0 || (Skip(s[0]) <= |s| && Complete(s[Skip(s[0])..]))
  }

  /** What utf8toutf32 produces, or None where it aborts. */
  function Decode(s: seq<bv8>): (r: Option<seq<CodePoint>>)
    requires Complete(s)
    decreases |s|
  {
    if s == [] then Some([])
    else if Skip(s[0]) == 0 then None
    else match Decode(s[Skip(s[0])..])
      case None => None
      case Some(u) => Some([DecodeChar(s)] + u)
  }

  /** What utf8_len counts: a last character that is cut short still counts. None where it aborts. */
  function CharCount(s: seq<bv8>): (r: Option<nat>)
    decreases |s|
  {
    if s == [] then Some(0)
    else if Skip(s[0]) == 0 then None
    else if Skip(s[0]) >= |s| then Some(1)
    else match CharCount(s[Skip(s[0])..])
      case None => None
      case Some(n) => Some(n + 1)
  }

  /** A sequence of well-formed shortest-form characters. */
  predicate WellFormed(s: seq<bv8>)
    decreases |s|
  {
    s == [] || (1 <= Skip(s[0]) <= |s| && WellFormedChar(s[..Skip(s[0])]) && WellFormed(s[Skip(s[0])..]))
  }

  /** Decoding a character looks only at the bytes it announces. */
  lemma DecodeCharLocal(s: seq<bv8>, t: seq<bv8>)
    requires s != [] && 1 <= Skip(s[0]) == |s|
    ensures DecodeChar(s + t) == DecodeChar(s)
  {
    hide JoinAll, LeadBits, Skip;
    assert (s + t)[1..|s|] == s[1..|s|];
  }

  /** Encoding then decoding is the identity; the bytes are well formed and utf8_len counts the code points. */
  lemma {:induction false} EncodeThenDecode(u: seq<CodePoint>)
    requires AllEncodable(u)
    ensures WellFormed(Encode(u)) && Complete(Encode(u))
    ensures Decode(Encode(u)) == Some(u)
    ensures CharCount(Encode(u)) == Some(|u|)
  {
    if u != [] {
      EncodeThenDecode(u[1..]);
      CharRoundTrip(u[0]);
      assert [u[0]] + u[1..] == u;
      PrependChar(EncodeChar(u[0]), Encode(u[1..]));
    }
  }

  /** One well-formed character in front of a complete string. */
  lemma {:induction false} PrependChar(c: seq<bv8>, s: seq<bv8>)
    requires WellFormedChar(c) && Complete(s)
    ensures WellFormed(c + s) == WellFormed(s) && Complete(c + s)
    ensures Decode(s).Some? ==> Decode(c + s) == Some([DecodeChar(c)] + Decode(s).value)
    ensures CharCount(s).Some? ==> CharCount(c + s) == Some(CharCount(s).value + 1)
  {
    hide Skip, DecodeChar;
    var t := c + s;
    assert t[0] == c[0];
    assert t[..|c|] == c && t[|c|..] == s;
    DecodeCharLocal(c, s);
  }

  /** Decoding then encoding is the identity on well-formed shortest-form text. */
  lemma {:induction false} DecodeThenEncode(s: seq<bv8>)
    requires WellFormed(s)
    ensures Complete(s) && Decode(s).Some? && AllEncodable(Decode(s).value)
    ensures Encode(Decode(s).value) == s
    ensures CharCount(s) == Some(|Decode(s).value|)
    decreases |s|
  {
    if s != [] {
      var n := Skip(s[0]);
      var c, t := s[..n], s[n..];
      DecodeThenEncode(t);
      CharRoundTripBack(c);
      PrependChar(c, t);
      assert c + t == s;
      EncodeFront(DecodeChar(c), Decode(t).value);
    }
  }

  lemma EncodeFront(c: CodePoint, u: seq<CodePoint>)
    requires Encodable(c) && AllEncodable(u)
    ensures AllEncodable([c] + u) && Encode([c] + u) == EncodeChar(c) + Encode(u)
  {
    hide EncodeChar;
    assert ([c] + u)[1..] == u;
  }

  /** The encoder reaches exactly the well-formed shortest-form texts. */
  lemma ImageIsWellFormed(s: seq<bv8>)
    ensures WellFormed(s) <==> exists u :: AllEncodable(u) && Encode(u) == s
  {
    if WellFormed(s) {
      DecodeThenEncode(s);
    }
    forall u | AllEncodable(u) && Encode(u) == s
      ensures WellFormed(s)
    {
      EncodeThenDecode(u);
    }
  }

  // ---------------------------------------------------------------------------
  // The conversions of util.c
  // ---------------------------------------------------------------------------

  lemma {:induction false} EncodeConcat(u: seq<CodePoint>, v: seq<CodePoint>)
    requires AllEncodable(u) && AllEncodable(v)
    ensures AllEncodable(u + v) && Encode(u + v) == Encode(u) + Encode(v)
  {
    hide EncodeChar;
    if u == [] {
      assert u + v == v;
    } else {
      EncodeConcat(u[1..], v);
      assert u + v == [u[0]] + (u[1..] + v);
      EncodeFront(u[0], u[1..] + v);
      Assoc(EncodeChar(u[0]), Encode(u[1..]), Encode(v));
    }
  }

  lemma EncodeOne(c: CodePoint)
    requires Encodable(c)
    ensures AllEncodable([c]) && Encode([c]) == EncodeChar(c)
  {
    hide EncodeChar;
    assert [c][1..] == [];
    assert EncodeChar(c) + [] == EncodeChar(c);
  }

  lemma EncodeNext(u: seq<CodePoint>, i: nat)
    requires i < |u| && AllEncodable(u[..i]) && Encodable(u[i])
    ensures AllEncodable(u[..i + 1]) && Encode(u[..i + 1]) == Encode(u[..i]) + EncodeChar(u[i])
  {
    hide EncodeChar;
    EncodeOne(u[i]);
    EncodeConcat(u[..i], [u[i]]);
    assert u[..i] + [u[i]] == u[..i + 1];
  }

  /** uchar2utf8_size; None where it aborts. */
  method Uchar2Utf8Size(u: seq<CodePoint>) returns (r: Option<nat>)
    ensures r.Some? <==> AllEncodable(u)
    ensures r.Some? ==> r.value == |Encode(u)|
  {
    hide EncodeChar;
    var size, i := 0, 0;
    while i < |u|
      invariant 0 <= i <= |u| && AllEncodable(u[..i])
      invariant size == |Encode(u[..i])|
    {
      if u[i] < 0x800 {
        if u[i] < 0x80 {
          size := size + 1;
        } else {
          size := size + 2;
        }
      } else {
        if u[i] < 0x10000 {
          size := size + 3;
        } else if u[i] < 0x200000 {
          size := size + 4;
        } else {
          return None;
        }
      }
      EncodeNext(u, i);
      i := i + 1;
    }
    assert u[..i] == u;
    return Some(size);
  }

  /** The buffer: as it was, except that `w` stands from `start` to `at`. */
  ghost predicate Holds(out: array<bv8>, was: seq<bv8>, start: nat, w: seq<bv8>, at: nat)
    reads out
  {
    |was| == out.Length && at == start + |w| <= out.Length && out[..] == was[..start] + w + was[at..]
  }

  /** `*sbuf++ = b;` */
  method Put(out: array<bv8>, at: nat, b: bv8, ghost was: seq<bv8>, ghost start: nat, ghost w: seq<bv8>)
      returns (next: nat, ghost w': seq<bv8>)
    requires Holds(out, was, start, w, at) && at < out.Length
    modifies out
    ensures next == at + 1 && w' == w + [b] && Holds(out, was, start, w', next)
  {
    out[at] := b;
    next, w' := at + 1, w + [b];
  }

  lemma HoldsNothing(out: array<bv8>, at: nat)
    requires at <= out.Length
    ensures Holds(out, out[..], at, [], at)
  {
  }

  /** The bytes of one code point, written from `at`; returns the position behind them. */
  method WriteChar(c: CodePoint, out: array<bv8>, at: nat) returns (next: nat)
    requires Encodable(c) && at + CharSize(c) <= out.Length
    modifies out
    ensures next == at + CharSize(c) && Holds(out, old(out[..]), at, EncodeChar(c), next)
  {
    hide EncodeChar, Holds;
    if c < 0x800 {
      next := WriteShort(c, out, at);
    } else if c < 0x10000 {
      next := WriteThree(c, out, at);
    } else {
      next := WriteFour(c, out, at);
    }
  }

  method WriteShort(c: CodePoint, out: array<bv8>, at: nat) returns (next: nat)
    requires c < 0x800 && at + CharSize(c) <= out.Length
    modifies out
    ensures next == at + CharSize(c) && Holds(out, old(out[..]), at, EncodeChar(c), next)
  {
    ghost var w, was := [], out[..];
    HoldsNothing(out, at);
    hide Low, Lead2, Lead3, Lead4, Middle12, Middle6, Final, Holds;
    if c < 0x80 {
      next, w := Put(out, at, Low(c), was, at, w);
    } else {
      next, w := Put(out, at, Lead2(c), was, at, w);
      next, w := Put(out, next, Final(c), was, at, w);
    }
    assert w == EncodeChar(c);
  }

  method WriteThree(c: CodePoint, out: array<bv8>, at: nat) returns (next: nat)
    requires 0x800 <= c && c < 0x10000 && at + 3 <= out.Length
    modifies out
    ensures next == at + 3 && Holds(out, old(out[..]), at, EncodeChar(c), next)
  {
    ghost var w, was := [], out[..];
    HoldsNothing(out, at);
    hide Low, Lead2, Lead3, Lead4, Middle12, Middle6, Final, Holds;
    next, w := Put(out, at, Lead3(c), was, at, w);
    next, w := Put(out, next, Middle6(c), was, at, w);
    next, w := Put(out, next, Final(c), was, at, w);
    assert w == EncodeChar(c);
  }

  method WriteFour(c: CodePoint, out: array<bv8>, at: nat) returns (next: nat)
    requires 0x10000 <= c && c < 0x200000 && at + 4 <= out.Length
    modifies out
    ensures next == at + 4 && Holds(out, old(out[..]), at, EncodeChar(c), next)
  {
    ghost var w, was := [], out[..];
    HoldsNothing(out, at);
    hide Low, Lead2, Lead3, Lead4, Middle12, Middle6, Final, Holds;
    next, w := Put(out, at, Lead4(c), was, at, w);
    next, w := Put(out, next, Middle12(c), was, at, w);
    next, w := Put(out, next, Middle6(c), was, at, w);
    next, w := Put(out, next, Final(c), was, at, w);
    assert w == EncodeChar(c);
  }

  /** One round of the loop of utf32toutf8. */
  method WriteNext(u: seq<CodePoint>, i: nat, out: array<bv8>, at: nat, ghost was: seq<bv8>) returns (next: nat)
    requires i < |u| && AllEncodable(u) && |Encode(u)| < out.Length == |was|
    requires at == |Encode(u[..i])| <= out.Length && out[..] == Encode(u[..i]) + was[at..]
    modifies out
    ensures next == |Encode(u[..i + 1])| <= out.Length && out[..] == Encode(u[..i + 1]) + was[next..]
  {
    hide EncodeChar, CharSize, Encode, Encodable;
    EncodeNext(u, i);
    Fits(u, i + 1);
    Splice(Encode(u[..i]), EncodeChar(u[i]), was, out[..]);
    next := WriteChar(u[i], out, at);
  }

  /** utf32toutf8 with a buffer: the encoding, a terminating zero and nothing else are written; None where it aborts. */
  method Utf32ToUtf8(u: seq<CodePoint>, out: array<bv8>) returns (r: Option<nat>)
    requires AllEncodable(u) ==> |Encode(u)| < out.Length
    modifies out
    ensures r.Some? <==> AllEncodable(u)
    ensures r.Some? ==> r.value == |Encode(u)| && out[..] == Encode(u) + [0] + old(out[r.value + 1..])
    ensures r.None? ==> out[..] == old(out[..])
  {
    hide EncodeChar;
    r := Uchar2Utf8Size(u);
    if r.None? {
      return;
    }
    hide CharSize;
    ghost var was := out[..];
    var at, i := 0, 0;
    while i < |u|
      invariant 0 <= i <= |u| && at == |Encode(u[..i])| <= out.Length
      invariant out[..] == Encode(u[..i]) + was[at..]
    {
      at := WriteNext(u, i, out, at, was);
      i := i + 1;
    }
    assert u[..i] == u;
    Terminate(Encode(u), was, out[..]);
    out[at] := 0;
  }

  lemma Splice<T>(done: seq<T>, next: seq<T>, was: seq<T>, now: seq<T>)
    requires |done| + |next| <= |was| && now == done + was[|done|..]
    ensures now[..|done|] + next + now[|done| + |next|..] == (done + next) + was[|done + next|..]
  {
  }

  lemma Terminate<T>(done: seq<T>, was: seq<T>, now: seq<T>)
    requires |done| < |was| && now == done + was[|done|..]
    ensures forall z :: now[|done| := z] == done + [z] + was[|done| + 1..]
  {
  }

  lemma Fits(u: seq<CodePoint>, i: nat)
    requires i <= |u| && AllEncodable(u)
    ensures |Encode(u[..i])| <= |Encode(u)|
  {
    EncodeConcat(u[..i], u[i..]);
    assert u[..i] + u[i..] == u;
  }

  /** utf8_len; None where it aborts. */
  method Utf8Len(s: seq<bv8>) returns (r: Option<nat>)
    ensures r == CharCount(s)
  {
    hide Skip;
    var len, at: nat := 0, 0;
    while at < |s|
      invariant at <= |s| ==> CharCount(s) == (match CharCount(s[at..]) case None => None case Some(n) => Some(len + n))
      invariant at > |s| ==> CharCount(s) == Some(len)
      decreases |s| - at
    {
      var skip := Skip(s[at]);
      if skip == 0 {
        return None;
      }
      assert s[at..][0] == s[at];
      if at + skip < |s| {
        assert s[at..][skip..] == s[at + skip..];
      }
      at := at + skip;
      len := len + 1;
    }
    return Some(len);
  }

  /** One character of utf8toutf32: the first byte gives the top bits, each later byte six more. */
  method ReadChar(s: seq<bv8>, at: nat) returns (c: CodePoint, next: nat)
    requires at < |s| && 1 <= Skip(s[at]) <= |s| - at
    ensures c == DecodeChar(s[at..]) && next == at + Skip(s[at])
  {
    hide LeadBits, Join;
    ghost var here := s[at..];
    assert here[0] == s[at];
    if s[at] < 0x80 {
      return s[at] as bv32, at + 1;
    }
    var skip := Skip(s[at]);
    FirstByte(s[at]);
    SliceOfRest(s, at, 1, skip);
    hide Skip;
    next := at + skip;
    c := ReadContinuation(LeadBits(s[at], skip), s, at + 1, next);
  }

  /** The inner loop: six bits from each continuation byte. */
  method ReadContinuation(lead: CodePoint, s: seq<bv8>, from: nat, end: nat) returns (c: CodePoint)
    requires from <= end <= |s|
    ensures c == JoinAll(lead, s[from..end])
  {
    hide Join;
    c := lead;
    var at := from;
    while at < end
      invariant from <= at <= end
      invariant JoinAll(c, s[at..end]) == JoinAll(lead, s[from..end])
    {
      SliceTail(s, at, end);
      c := Join(c, s[at]);
      at := at + 1;
    }
  }

  lemma SliceOfRest<T>(s: seq<T>, at: nat, from: nat, end: nat)
    requires from <= end && at + end <= |s|
    ensures s[at..][from..end] == s[at + from..at + end]
  {
  }

  lemma SliceTail<T>(s: seq<T>, at: nat, end: nat)
    requires at < end <= |s|
    ensures s[at..end][0] == s[at] && s[at..end][1..] == s[at + 1..end]
  {
  }

  lemma FirstByte(b: bv8)
    requires b >= 0x80 && Skip(b) >= 1
    ensures 2 <= Skip(b) <= 6
  {
  }

  /** utf8toutf32; None where it aborts. */
  method Utf8ToUtf32(s: seq<bv8>) returns (r: Option<array<CodePoint>>)
    requires Complete(s)
    ensures r.Some? <==> Decode(s).Some?
    ensures r.Some? ==> r.value[..] == Decode(s).value
  {
    hide Skip, DecodeChar;
    var ulen := Utf8Len(s);
    CountsDecoded(s);
    if ulen.None? {
      return None;
    }
    var ustr := new CodePoint[ulen.value];
    var u, at: nat := 0, 0;
    while at < |s|
      invariant at <= |s| && u <= ustr.Length && Complete(s[at..]) && Decode(s[at..]).Some?
      invariant Decode(s).value == ustr[..u] + Decode(s[at..]).value
      decreases |s| - at
    {
      assert s[at..][0] == s[at];
      assert s[at..][Skip(s[at])..] == s[at + Skip(s[at])..];
      var c, next := ReadChar(s, at);
      ghost var rest := Decode(s[next..]).value;
      Assoc(ustr[..u], [c], rest);
      ustr[u] := c;
      assert ustr[..u + 1] == ustr[..u] + [c];
      u := u + 1;
      at := next;
    }
    assert ustr[..u] == ustr[..];
    return Some(ustr);
  }

  /** utf8_len aborts when and only when the conversion does, and otherwise counts what it produces. */
  lemma {:induction false} CountsDecoded(s: seq<bv8>)
    requires Complete(s)
    ensures CharCount(s).Some? <==> Decode(s).Some?
    ensures Decode(s).Some? ==> CharCount(s) == Some(|Decode(s).value|)
    decreases |s|
  {
    hide Skip, DecodeChar;
    if s != [] && Skip(s[0]) != 0 {
      CountsDecoded(s[Skip(s[0])..]);
    }
  }

  /** A last character that announces more bytes than are there is counted, too. */
  lemma {:induction false} CountsCutShort(s: seq<bv8>, t: seq<bv8>)
    requires Complete(s) && Decode(s).Some? && t != [] && Skip(t[0]) > |t|
    ensures CharCount(s + t) == Some(|Decode(s).value| + 1)
    decreases |s|
  {
    hide Skip, DecodeChar;
    if s == [] {
      assert s + t == t;
    } else {
      var k := Skip(s[0]);
      CountsCutShort(s[k..], t);
      hide Decode, Complete;
      CountsFirst(s + t, s[k..] + t);
    }
  }

  lemma CountsFirst(s: seq<bv8>, rest: seq<bv8>)
    requires s != [] && 0 < Skip(s[0]) < |s| && s[Skip(s[0])..] == rest && CharCount(rest).Some?
    ensures CharCount(s) == Some(CharCount(rest).value + 1)
  {
    hide Skip;
  }
}
