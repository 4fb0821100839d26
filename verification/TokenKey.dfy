/**
 The key under which a token is stored (token.c:267-275, encrypt.c:83-99): the token is encoded as a C string and
 an MD5 digest of that string is taken. The digest is left out, as injective; the key is what is digested, the
 encoded bytes up to the first zero byte.
 */
module TokenKey {
  import opened Wrappers
  import opened Tokenizer
  import opened Utf

  type Key = seq<bv8>

  /** The bytes that `strlen` counts. */
  function CString(s: seq<bv8>): (r: seq<bv8>)
  {
    if s == [] || s[0] == 0 then [] else [s[0]] + CString(s[1..])
  }

  /** What is digested for a token; without meaning where the encoder aborts. */
  function KeyOf(t: Text): (key: Key)
  {
    if AllEncodable(t) then CString(Encode(t)) else []
  }

  /** The part of a token before its first zero character. */
  function UpToZero(t: Text): (r: Text)
  {
    if t == [] || t[0] == 0 then [] else [t[0]] + UpToZero(t[1..])
  }

  // ---------------------------------------------------------------------------
  // When keys are the same
  // ---------------------------------------------------------------------------

  lemma NoZeroByte(c: CodePoint)
    requires Encodable(c) && c != 0
    ensures forall k :: 0 <= k < |EncodeChar(c)| ==> EncodeChar(c)[k] != 0
  {
    LeadingBits(c);
    hide Low, Lead2, Lead3, Lead4, Middle12, Middle6, Final;
  }

  lemma LeadingBits(c: CodePoint)
    requires Encodable(c) && c != 0
    ensures c < 0x80 ==> Low(c) != 0
    ensures Lead2(c) != 0 && Lead3(c) != 0 && Lead4(c) != 0
    ensures Middle12(c) != 0 && Middle6(c) != 0 && Final(c) != 0
  {
  }

  lemma ZeroByte()
    ensures EncodeChar(0) == [0]
  {
  }

  lemma {:induction false} CStringBehind(a: seq<bv8>, s: seq<bv8>)
    requires forall k :: 0 <= k < |a| ==> a[k] != 0
    ensures CString(a + s) == a + CString(s)
  {
    if a == [] {
      assert a + s == s;
    } else {
      CStringBehind(a[1..], s);
      assert (a + s)[1..] == a[1..] + s;
    }
  }

  /** The key is the encoding of the token up to its first zero character. */
  lemma {:induction false} KeyIsEncoding(t: Text)
    requires AllEncodable(t)
    ensures AllEncodable(UpToZero(t)) && KeyOf(t) == Encode(UpToZero(t))
  {
    hide EncodeChar;
    if t != [] {
      if t[0] == 0 {
        ZeroByte();
      } else {
        KeyIsEncoding(t[1..]);
        NoZeroByte(t[0]);
        CStringBehind(EncodeChar(t[0]), Encode(t[1..]));
        EncodeFront(t[0], UpToZero(t[1..]));
      }
    }
  }

  /** Two tokens share a key if and only if they agree up to the first zero character. */
  lemma SameKey(u: Text, v: Text)
    requires AllEncodable(u) && AllEncodable(v)
    ensures KeyOf(u) == KeyOf(v) <==> UpToZero(u) == UpToZero(v)
  {
    KeyIsEncoding(u);
    KeyIsEncoding(v);
    EncodeThenDecode(UpToZero(u));
    EncodeThenDecode(UpToZero(v));
    hide *;
  }

  lemma {:induction false} ZeroFree(t: Text)
    ensures UpToZero(t) == t <==> 0 !in t
  {
    if t != [] {
      ZeroFree(t[1..]);
      assert t == [t[0]] + t[1..];
    }
  }

  /** On tokens without zero characters the key is injective. */
  lemma KeyInjective(u: Text, v: Text)
    requires AllEncodable(u) && AllEncodable(v) && 0 !in u && 0 !in v
    ensures KeyOf(u) == KeyOf(v) <==> u == v
  {
    SameKey(u, v);
    ZeroFree(u);
    ZeroFree(v);
  }

  /** Encoding a token and measuring it with `strlen`; None where the encoder aborts. */
  method HashInput(token: Text) returns (r: Option<Key>)
    ensures r == if AllEncodable(token) then Some(KeyOf(token)) else None
  {
    hide Encode;
    var size := Uchar2Utf8Size(token);
    if size.None? {
      return None;
    }
    var t8 := new bv8[size.value + 1];
    var written := Utf32ToUtf8(token, t8);
    assert t8[..] == Encode(token) + [0];
    assert t8[..][size.value] == 0;
    EndsAtZero(Encode(token));
    var len := StrLen(t8, size.value);
    return Some(t8[..len]);
  }

  /** strlen of a string that ends at `end` at the latest. */
  method StrLen(s: array<bv8>, end: nat) returns (len: nat)
    requires end < s.Length && s[end] == 0
    ensures len <= end && s[..len] == CString(s[..])
  {
    len := 0;
    assert s[0..] == s[..];
    while s[len] != 0
      invariant len <= end && CString(s[..]) == s[..len] + CString(s[len..])
      decreases end - len
    {
      assert s[len..][0] == s[len] && s[len..][1..] == s[len + 1..];
      assert s[..len] + [s[len]] == s[..len + 1];
      Assoc(s[..len], [s[len]], CString(s[len + 1..]));
      len := len + 1;
    }
    assert CString(s[len..]) == [];
  }

  lemma {:induction false} EndsAtZero(s: seq<bv8>)
    ensures CString(s + [0]) == CString(s)
  {
    if s == [] {
      assert s + [0] == [0];
    } else {
      EndsAtZero(s[1..]);
      assert (s + [0])[1..] == s[1..] + [0];
    }
  }

  // ---------------------------------------------------------------------------
  // Which tokens are encoded
  // ---------------------------------------------------------------------------

  /** Tokens that are kept: all of them in a document, full-length ones in a query. */
  predicate Kept(stream: seq<Text>, all: bool, n: nat, k: nat)
    requires k < |stream|
  {
    all || |stream[k]| >= n
  }

  /** The encoder aborts on none of the first `k` tokens. */
  ghost predicate Hashable(stream: seq<Text>, all: bool, n: nat, k: nat)
    requires k <= |stream|
  {
    forall b :: 0 <= b < k && Kept(stream, all, n, b) ==> AllEncodable(stream[b])
  }

  lemma SmallLetters(c: CodePoint)
    ensures IsIgnored(c) || IsAlpha(c) ==> Encodable(c)
  {
  }

  /** No document token makes the encoder abort if and only if no character of the body does. */
  lemma BodyHashable(body: Text, n: nat)
    requires n > 0
    ensures Hashable(Stream(body, n), true, n, |Stream(body, n)|) <==> AllEncodable(body)
  {
    hide IsIgnored, IsAlpha, Encodable;
    StreamClosedForm(body, n);
    var stream := Stream(body, n);
    hide Stream;
    if AllEncodable(body) {
      forall k: nat | k < |stream|
        ensures AllEncodable(stream[k])
      {
        var i := Scan(body, 0, n)[k].0;
      }
    }
    if Hashable(stream, true, n, |stream|) {
      forall i | 0 <= i < |body|
        ensures Encodable(body[i])
      {
        SmallLetters(body[i]);
        if !IsIgnored(body[i]) && !IsAlpha(body[i]) {
          assert IsStart(body, i);
          var t := stream[CountStarts(body, i)];
          assert t == body[i..TokenEnd(body, i, n)] && t[0] == body[i];
          assert AllEncodable(t);
        }
      }
    }
  }
}
