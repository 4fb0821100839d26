/**
 When comparing keys is as good as comparing tokens. Keys stop at a zero character (token.c:267-275 and
 encrypt.c:87), so a full-length query token that holds one is also found where the document goes on differently.
 */
module ExactAnswers {
  import opened Wrappers
  import opened Tokenizer
  import opened TokenKey
  import opened Query
  import Utf

  /** Every full-length token of the query can be encoded; the search aborts on all other queries. */
  ghost predicate Encodes(q: Text, n: nat)
    requires n > 0
  {
    Hashable(Stream(q, n), false, n, |Stream(q, n)|)
  }

  /** No full-length token holds a zero character; tokens of one character are compared to the end in any case. */
  ghost predicate ExactQuery(q: Text, n: nat)
    requires n > 0
  {
    n == 1 || forall b :: IsKept(q, n, b) ==> 0 !in Stream(q, n)[b]
  }

  // ---------------------------------------------------------------------------
  // Queries for which the answer is exact
  // ---------------------------------------------------------------------------

  /** A token is a run of letters, or has at most `n` characters and does not begin with a letter. */
  predicate Shape(t: Text, n: nat)
  {
    && t != []
    && if IsAlpha(t[0]) then forall k :: 0 <= k < |t| ==> IsAlpha(t[k]) else |t| <= n
  }

  lemma TokenShape(text: Text, n: nat, k: nat)
    requires n > 0 && k < |Stream(text, n)|
    ensures Shape(Stream(text, n)[k], n)
  {
    hide IsIgnored, IsAlpha;
    StreamClosedForm(text, n);
    var i := Scan(text, 0, n)[k].0;
    assert Stream(text, n)[k] == text[i..TokenEnd(text, i, n)];
    assert text[i..TokenEnd(text, i, n)][0] == text[i];
  }

  lemma {:induction false} UpToZeroIsPrefix(t: Text)
    ensures |UpToZero(t)| <= |t| && UpToZero(t) == t[..|UpToZero(t)|]
    ensures |UpToZero(t)| < |t| ==> t[|UpToZero(t)|] == 0
    ensures 0 !in UpToZero(t)
  {
    if t != [] && t[0] != 0 {
      UpToZeroIsPrefix(t[1..]);
    }
  }

  lemma ZeroIsNoLetter()
    ensures !IsAlpha(0) && !IsIgnored(0)
  {
  }

  /** A full-length token without zero characters shares its key with no other token. */
  lemma KeyDecides(u: Text, t: Text, n: nat)
    requires n > 0 && Utf.AllEncodable(u) && Utf.AllEncodable(t) && Shape(u, n) && Shape(t, n)
    requires |t| >= n && (n == 1 || 0 !in t)
    ensures KeyOf(u) == KeyOf(t) <==> u == t
  {
    hide KeyOf, IsAlpha, UpToZero;
    if KeyOf(u) == KeyOf(t) {
      SameKey(u, t);
      UpToZeroIsPrefix(u);
      UpToZeroIsPrefix(t);
      ZeroIsNoLetter();
      ZeroFree(t);
    }
  }

  /** The tokens of an encodable body and the kept tokens of an encodable query. */
  lemma TokensEncode(body: Text, q: Text, n: nat, k: nat, b: nat)
    requires n > 0 && Utf.AllEncodable(body) && Encodes(q, n) && k < |Stream(body, n)| && IsKept(q, n, b)
    ensures Utf.AllEncodable(Stream(body, n)[k]) && Utf.AllEncodable(Stream(q, n)[b])
  {
    hide Stream, Utf.AllEncodable;
    BodyHashable(body, n);
    assert Kept(Stream(body, n), true, n, k);
  }

  lemma SameComparison(body: Text, q: Text, n: nat, k: int, b: int)
    requires n > 0 && Utf.AllEncodable(body) && Encodes(q, n) && ExactQuery(q, n) && IsKept(q, n, b)
    ensures StandsAt(body, q, n, ByKey, k, b) <==> StandsAt(body, q, n, ByToken, k, b)
  {
    hide Stream, Utf.AllEncodable, KeyOf, Shape, Encodes;
    if 0 <= k < |Stream(body, n)| {
      TokensEncode(body, q, n, k, b);
      TokenShape(body, n, k);
      TokenShape(q, n, b);
      KeyDecides(Stream(body, n)[k], Stream(q, n)[b], n);
    }
  }

  lemma ExactAnswer(body: Text, q: Text, n: nat, phrase: bool)
    requires n > 0 && Utf.AllEncodable(body) && Encodes(q, n) && ExactQuery(q, n)
    ensures Answers(body, q, n, phrase, ByKey) <==> Answers(body, q, n, phrase, ByToken)
  {
    hide IsKept, StandsAt, ExactQuery, Encodes, Utf.AllEncodable;
    forall k, b | IsKept(q, n, b)
      ensures StandsAt(body, q, n, ByKey, k, b) <==> StandsAt(body, q, n, ByToken, k, b)
    {
      SameComparison(body, q, n, k, b);
    }
    assert HoldsAll(body, q, n, ByKey) <==> HoldsAll(body, q, n, ByToken);
    forall r
      ensures OccursAt(body, q, n, ByKey, r) <==> OccursAt(body, q, n, ByToken, r)
    {
    }
  }

  // ---------------------------------------------------------------------------
  // A body on which every other query goes wrong
  // ---------------------------------------------------------------------------

  const Space: UTF32Char := 0x20

  /** Zero characters are set apart; a character that cannot be encoded becomes some other that is no letter. */
  function Apiece(c: UTF32Char): (r: Text)
    ensures |r| == if c == 0 then 3 else 1
  {
    if c == 0 then [Space, 0, Space] else if Utf.Encodable(c) then [c] else [0x4e2d]
  }

  function Spaced(q: Text): (r: Text)
  {
    if q == [] then [] else Spaced(q[..|q| - 1]) + Apiece(q[|q| - 1])
  }

  /** Where what stands for character `i` begins. */
  function At(q: Text, i: nat): (p: nat)
    requires i <= |q|
  {
    |Spaced(q[..i])|
  }

  lemma {:induction false} SpacedPrefix(q: Text, i: nat)
    requires i <= |q|
    ensures At(q, i) <= |Spaced(q)| && Spaced(q)[..At(q, i)] == Spaced(q[..i])
    decreases |q|
  {
    hide Apiece;
    if i < |q| {
      var rest := q[..|q| - 1];
      SpacedPrefix(rest, i);
      assert rest[..i] == q[..i];
      assert Spaced(q)[..At(q, i)] == Spaced(rest)[..At(q, i)];
    } else {
      assert q[..i] == q;
    }
  }

  lemma PieceAt(q: Text, i: nat)
    requires i < |q|
    ensures At(q, i) + |Apiece(q[i])| == At(q, i + 1) <= |Spaced(q)|
    ensures Spaced(q)[At(q, i)..At(q, i + 1)] == Apiece(q[i])
  {
    hide Apiece;
    SpacedPrefix(q, i + 1);
    assert q[..i + 1][..i] == q[..i];
    assert Spaced(q[..i + 1]) == Spaced(q[..i]) + Apiece(q[i]);
    hide Spaced;
    var s, a, b := Spaced(q), At(q, i), At(q, i + 1);
    assert s[a..b] == s[..b][a..];
  }

  lemma ZeroImage(q: Text, i: nat)
    requires i < |q| && q[i] == 0
    ensures var s, p := Spaced(q), At(q, i);
            && At(q, i + 1) == p + 3 <= |s|
            && s[p] == Space && s[p + 1] == 0 && s[p + 2] == Space
  {
    PieceAt(q, i);
    hide At, Spaced;
    ThreeItems(Spaced(q), At(q, i), Space, 0, Space);
  }

  lemma ThreeItems<T>(s: seq<T>, p: nat, a: T, b: T, c: T)
    requires p + 3 <= |s| && s[p..p + 3] == [a, b, c]
    ensures s[p] == a && s[p + 1] == b && s[p + 2] == c
  {
    var r := s[p..p + 3];
    assert r[0] == a && r[1] == b && r[2] == c;
  }

  lemma OtherImage(q: Text, i: nat)
    requires i < |q| && q[i] != 0
    ensures var s, p := Spaced(q), At(q, i);
            && At(q, i + 1) == p + 1 <= |s| && s[p] != 0
            && (Utf.Encodable(q[i]) ==> s[p] == q[i])
            && IsAlpha(s[p]) == IsAlpha(q[i]) && IsIgnored(s[p]) == IsIgnored(q[i])
  {
    PieceAt(q, i);
    hide At, Spaced;
    var s, p := Spaced(q), At(q, i);
    assert s[p..p + 1][0] == s[p];
    SmallLetters(q[i]);
    SpareLetter();
  }

  lemma SpareLetter()
    ensures !IsAlpha(0x4e2d) && !IsIgnored(0x4e2d)
    ensures !IsAlpha(Space) && IsIgnored(Space)
  {
  }

  // ---------------------------------------------------------------------------
  // Its tokens
  // ---------------------------------------------------------------------------

  lemma StartImage(q: Text, i: nat)
    requires i < |q| && q[i] != 0
    ensures At(q, i) < |Spaced(q)| && IsStart(Spaced(q), At(q, i)) == IsStart(q, i)
  {
    OtherImage(q, i);
    ZeroIsNoLetter();
    SpareLetter();
    if i > 0 {
      if q[i - 1] == 0 {
        ZeroImage(q, i - 1);
      } else {
        OtherImage(q, i - 1);
      }
    } else {
      assert q[..0] == [];
      assert At(q, 0) == 0;
    }
    hide At, Spaced, IsAlpha, IsIgnored;
  }

  lemma {:induction false} CountImage(q: Text, i: nat)
    requires i <= |q|
    ensures At(q, i) <= |Spaced(q)| && CountStarts(Spaced(q), At(q, i)) == CountStarts(q, i)
    decreases i
  {
    hide Spaced, IsAlpha, IsIgnored;
    SpacedPrefix(q, i);
    if i == 0 {
      NothingBefore(q);
    } else {
      CountImage(q, i - 1);
      ZeroIsNoLetter();
      SpareLetter();
      if q[i - 1] == 0 {
        ZeroImage(q, i - 1);
        OneStart(Spaced(q), At(q, i - 1));
      } else {
        StartImage(q, i - 1);
        OtherImage(q, i - 1);
      }
    }
  }

  lemma OneStart(s: Text, p: nat)
    requires p + 3 <= |s| && s[p] == Space && s[p + 1] == 0 && s[p + 2] == Space
    ensures IsStart(s, p + 1) && CountStarts(s, p + 1) == CountStarts(s, p)
    ensures CountStarts(s, p + 3) == CountStarts(s, p) + 1
  {
    ZeroIsNoLetter();
    SpareLetter();
    hide IsAlpha, IsIgnored;
    assert CountStarts(s, p + 2) == CountStarts(s, p) + 1;
  }

  lemma NothingBefore(q: Text)
    ensures At(q, 0) == 0
  {
    assert q[..0] == [];
  }

  lemma NothingBehind(q: Text)
    ensures At(q, |q|) == |Spaced(q)|
  {
    assert q[..|q|] == q;
  }

  lemma {:induction false} RunImage(q: Text, i: nat)
    requires i < |q| && IsAlpha(q[i])
    ensures var s, p := Spaced(q), At(q, i);
            p < |s| && IsAlpha(s[p]) && s[p..RunEnd(s, p)] == q[i..RunEnd(q, i)]
    decreases |q| - i
  {
    hide Spaced, At, IsAlpha, IsIgnored;
    ZeroIsNoLetter();
    SpareLetter();
    SmallLetters(q[i]);
    OtherImage(q, i);
    var s, p := Spaced(q), At(q, i);
    if i + 1 < |q| {
      if IsAlpha(q[i + 1]) {
        RunImage(q, i + 1);
        assert s[p..RunEnd(s, p)] == [s[p]] + s[p + 1..RunEnd(s, p)];
      } else if q[i + 1] == 0 {
        ZeroImage(q, i + 1);
      } else {
        OtherImage(q, i + 1);
      }
    } else {
      NothingBehind(q);
    }
  }

  lemma {:induction false} GramImage(q: Text, i: nat, m: nat)
    requires i + m <= |q| && GramEnd(q, i, m) == i + m && Utf.AllEncodable(q[i..i + m])
    ensures var s, p, u := Spaced(q), At(q, i), UpToZero(q[i..i + m]);
            p <= |s| && GramEnd(s, p, m) == p + |u| && s[p..p + |u|] == u
    decreases m
  {
    hide Spaced, At, IsAlpha, IsIgnored, Utf.AllEncodable;
    SpareLetter();
    CountImage(q, i);
    if m > 0 {
      FirstOfSlice(q, i, m);
      if q[i] == 0 {
        ZeroImage(q, i);
      } else {
        OtherImage(q, i);
        GramImage(q, i + 1, m - 1);
        OneMore(Spaced(q), At(q, i), UpToZero(q[i + 1..i + m]));
      }
    }
  }

  lemma FirstOfSlice(q: Text, i: nat, m: nat)
    requires 0 < m && i + m <= |q| && Utf.AllEncodable(q[i..i + m])
    ensures Utf.Encodable(q[i]) && q[i..i + m][0] == q[i] && q[i..i + m][1..] == q[i + 1..i + m]
    ensures Utf.AllEncodable(q[i + 1..i + m])
  {
    assert q[i..i + m][1..] == q[i + 1..i + m];
  }

  lemma OneMore<T>(s: seq<T>, p: nat, u: seq<T>)
    requires p + 1 + |u| <= |s| && s[p + 1..p + 1 + |u|] == u
    ensures s[p..p + 1 + |u|] == [s[p]] + u
  {
  }

  // ---------------------------------------------------------------------------
  // How it answers
  // ---------------------------------------------------------------------------

  lemma {:induction false} SpacedEncodes(q: Text)
    ensures Utf.AllEncodable(Spaced(q))
    decreases |q|
  {
    if q != [] {
      SpacedEncodes(q[..|q| - 1]);
    }
  }

  lemma CutAtZero(t: Text)
    requires Utf.AllEncodable(t)
    ensures Utf.AllEncodable(UpToZero(t)) && KeyOf(UpToZero(t)) == KeyOf(t)
    ensures t != [] && t[0] == 0 ==> KeyOf([0]) == KeyOf(t)
  {
    UpToZeroIsPrefix(t);
    hide KeyOf;
    SameKey(UpToZero(t), t);
    ZeroFree(UpToZero(t));
    if t != [] && t[0] == 0 {
      SameKey([0], t);
    }
  }

  /** For a full-length token there is one with the same key in the spaced query. */
  lemma TokenImage(q: Text, n: nat, i: nat) returns (p: nat)
    requires n > 0 && IsStart(q, i) && TokenEnd(q, i, n) - i >= n && Utf.AllEncodable(q[i..TokenEnd(q, i, n)])
    ensures IsStart(Spaced(q), p) && CountStarts(Spaced(q), p) == CountStarts(q, i)
    ensures KeyOf(Spaced(q)[p..TokenEnd(Spaced(q), p, n)]) == KeyOf(q[i..TokenEnd(q, i, n)])
  {
    hide Spaced, At, IsAlpha, IsIgnored, Utf.AllEncodable, KeyOf, CountStarts, UpToZero;
    var s, t := Spaced(q), q[i..TokenEnd(q, i, n)];
    assert t[0] == q[i];
    p := At(q, i);
    CountImage(q, i);
    ZeroIsNoLetter();
    SpareLetter();
    CutAtZero(t);
    if q[i] == 0 {
      ZeroImage(q, i);
      OneStart(s, p);
      p := p + 1;
      assert s[p..TokenEnd(s, p, n)] == [0] by { LoneGram(s, p, n); }
    } else {
      StartImage(q, i);
      OtherImage(q, i);
      if IsAlpha(q[i]) {
        RunImage(q, i);
      } else {
        GramImage(q, i, n);
      }
    }
  }

  lemma LoneGram(s: Text, p: nat, n: nat)
    requires n > 0 && p + 1 < |s| && s[p] == 0 && s[p + 1] == Space
    ensures TokenEnd(s, p, n) == p + 1 && s[p..p + 1] == [0]
  {
    ZeroIsNoLetter();
    SpareLetter();
    hide IsAlpha, IsIgnored;
    assert GramEnd(s, p, n) == GramEnd(s, p + 1, n - 1);
  }

  /** Every kept token of the query stands at its own place in the spaced query, as far as keys go. */
  lemma KeptImage(q: Text, n: nat, b: nat)
    requires n > 0 && Encodes(q, n) && IsKept(q, n, b)
    ensures StandsAt(Spaced(q), q, n, ByKey, b, b)
  {
    hide Spaced, Utf.AllEncodable, KeyOf, CountStarts, IsStart, TokenEnd;
    StreamClosedForm(q, n);
    var i := Scan(q, 0, n)[b].0;
    assert Utf.AllEncodable(Stream(q, n)[b]);
    hide Stream;
    assert i < |q| && !IsIgnored(q[i]) by { StartIsInside(q, i); }
    var p := TokenImage(q, n, i);
    StreamAt(Spaced(q), n, p);
  }

  lemma StartIsInside(text: Text, i: nat)
    requires IsStart(text, i)
    ensures i < |text| && !IsIgnored(text[i])
  {
  }

  lemma {:induction false} ZerosApart(q: Text, p: nat)
    requires p < |Spaced(q)| && Spaced(q)[p] == 0
    ensures 0 < p && p + 1 < |Spaced(q)| && Spaced(q)[p - 1] == Space && Spaced(q)[p + 1] == Space
    decreases |q|
  {
    var rest, c := q[..|q| - 1], q[|q| - 1];
    if p < |Spaced(rest)| {
      ZerosApart(rest, p);
    } else {
      assert Apiece(c)[p - |Spaced(rest)|] == 0;
    }
  }

  lemma TokenUnignored(text: Text, i: nat, n: nat)
    requires n > 0 && i < |text| && !IsIgnored(text[i])
    ensures forall k :: i <= k < TokenEnd(text, i, n) ==> !IsIgnored(text[k])
  {
    hide IsIgnored, IsAlpha;
    forall k | i <= k < TokenEnd(text, i, n)
      ensures !IsIgnored(text[k])
    {
      AlphaIsNotIgnored(text[k]);
    }
  }

  lemma NoZeroInside(q: Text, i: nat, e: nat)
    requires i < e <= |Spaced(q)| && forall k :: i <= k < e ==> !IsIgnored(Spaced(q)[k])
    ensures Spaced(q)[i..e] == [0] || forall k :: i <= k < e ==> Spaced(q)[k] != 0
  {
    SpareLetter();
    hide Spaced, IsIgnored, IsAlpha;
    var s := Spaced(q);
    if j :| i <= j < e && s[j] == 0 {
      ZerosApart(q, j);
      assert !(i <= j - 1 < e) && !(i <= j + 1 < e);
      assert s[i..e] == [s[j]];
    }
  }

  /** A token of the spaced query is the zero character alone, or has none. */
  lemma NoZeroWithin(q: Text, n: nat, k: nat)
    requires n > 0 && k < |Stream(Spaced(q), n)|
    ensures var u := Stream(Spaced(q), n)[k]; u == [0] || 0 !in u
  {
    hide Spaced, IsIgnored, IsAlpha, TokenEnd;
    var s := Spaced(q);
    StreamClosedForm(s, n);
    var i := Scan(s, 0, n)[k].0;
    hide Stream;
    TokenUnignored(s, i, n);
    NoZeroInside(q, i, TokenEnd(s, i, n));
  }

  /** All other queries are answered with their spaced form, which does not hold their tokens. */
  lemma InexactAnswer(q: Text, n: nat, phrase: bool)
    requires n > 0 && Encodes(q, n) && !ExactQuery(q, n)
    ensures Utf.AllEncodable(Spaced(q))
    ensures Answers(Spaced(q), q, n, phrase, ByKey) && !Answers(Spaced(q), q, n, phrase, ByToken)
  {
    SpacedEncodes(q);
    hide Spaced, Utf.AllEncodable, Stream, Encodes;
    var s := Spaced(q);
    forall b | IsKept(q, n, b)
      ensures StandsAt(s, q, n, ByKey, 0 + b, b)
    {
      KeptImage(q, n, b);
    }
    assert OccursAt(s, q, n, ByKey, 0);
    OccursMeansHolds(s, q, n, ByKey, 0);
    var b :| IsKept(q, n, b) && 0 in Stream(q, n)[b];
    forall k
      ensures !StandsAt(s, q, n, ByToken, k, b)
    {
      if 0 <= k < |Stream(s, n)| {
        NoZeroWithin(q, n, k);
      }
    }
    forall r
      ensures !OccursAt(s, q, n, ByToken, r)
    {
      OccursMeansHolds(s, q, n, ByToken, r);
    }
  }

  /**
   The answer is exact on every body if and only if no full-length token of the query holds a zero character, or
   tokens are single characters.
   */
  lemma ExactExactlyWhen(q: Text, n: nat, phrase: bool)
    requires n > 0 && Encodes(q, n)
    ensures ExactQuery(q, n) <==>
            forall body :: Utf.AllEncodable(body) ==>
              (Answers(body, q, n, phrase, ByKey) <==> Answers(body, q, n, phrase, ByToken))
  {
    hide Answers, ExactQuery, Encodes, Utf.AllEncodable;
    if ExactQuery(q, n) {
      forall body | Utf.AllEncodable(body)
        ensures Answers(body, q, n, phrase, ByKey) <==> Answers(body, q, n, phrase, ByToken)
      {
        ExactAnswer(body, q, n, phrase);
      }
    } else {
      InexactAnswer(q, n, phrase);
    }
  }

  // ---------------------------------------------------------------------------
  // Two inputs
  // ---------------------------------------------------------------------------

  lemma OneGram(c: UTF32Char)
    requires !IsIgnored(c) && !IsAlpha(c)
    ensures Stream([c], 2) == [[c]]
  {
    hide IsIgnored, IsAlpha;
    assert GramEnd([c], 0, 2) == GramEnd([c], 1, 1) == 1;
    assert Scan([c], 1, 2) == [];
    assert Scan([c], 0, 2) == [(0, 1)];
    assert Stream([c], 2)[0] == [c];
  }

  lemma TwoGrams(c: UTF32Char, d: UTF32Char)
    requires !IsIgnored(c) && !IsAlpha(c) && !IsIgnored(d) && !IsAlpha(d)
    ensures Stream([c, d], 2) == [[c, d], [d]]
  {
    hide IsIgnored, IsAlpha;
    var t := [c, d];
    assert GramEnd(t, 1, 2) == GramEnd(t, 2, 1) == 2;
    assert GramEnd(t, 0, 2) == GramEnd(t, 1, 1) == GramEnd(t, 2, 0) == 2;
    assert Scan(t, 2, 2) == [];
    assert Scan(t, 1, 2) == [(1, 2)];
    assert Scan(t, 0, 2) == [(0, 2), (1, 2)];
    assert Stream(t, 2)[0] == [c, d] && Stream(t, 2)[1] == [d];
  }

  /** U+4E2D and an overlong zero, searched in a document that is only U+4E2D. */
  lemma ZeroInQuery()
    ensures var bytes: seq<bv8>, body: Text, q: Text := [0xe4, 0xb8, 0xad, 0xc0, 0x80], [0x4e2d], [0x4e2d, 0];
            && Utf.Complete(bytes) && Utf.Decode(bytes) == Some(q)
            && Encodes(q, 2) && HasToken(q, 2)
            && Answers(body, q, 2, true, ByKey) && Answers(body, q, 2, false, ByKey)
            && !Answers(body, q, 2, true, ByToken) && !Answers(body, q, 2, false, ByToken)
  {
    DecodesOverlong();
    var body: Text, q: Text := [0x4e2d], [0x4e2d, 0];
    SpareLetter();
    ZeroIsNoLetter();
    OneGram(0x4e2d);
    TwoGrams(0x4e2d, 0);
    assert UpToZero(body) == body == UpToZero(q) by { assert UpToZero(q[1..]) == []; }
    SameKey(body, q);
    hide Stream, KeyOf, UpToZero;
    assert IsKept(q, 2, 0) && forall b :: IsKept(q, 2, b) ==> b == 0;
    assert StandsAt(body, q, 2, ByKey, 0 + 0, 0);
    assert OccursAt(body, q, 2, ByKey, 0);
    OccursMeansHolds(body, q, 2, ByKey, 0);
    assert forall k :: !StandsAt(body, q, 2, ByToken, k, 0);
    forall r
      ensures !OccursAt(body, q, 2, ByToken, r)
    {
      OccursMeansHolds(body, q, 2, ByToken, r);
    }
  }

  lemma DecodesOverlong()
    ensures var bytes: seq<bv8> := [0xe4, 0xb8, 0xad, 0xc0, 0x80];
            Utf.Complete(bytes) && Utf.Decode(bytes) == Some([0x4e2d, 0])
  {
    var bytes: seq<bv8> := [0xe4, 0xb8, 0xad, 0xc0, 0x80];
    var rest := bytes[3..];
    assert rest == [0xc0, 0x80] && rest[2..] == [];
    assert bytes[1..3] == [0xb8, 0xad] && rest[1..2] == [0x80];
    Utf.JoinTwo(Utf.LeadBits(0xc0, 2), 0x80);
    Utf.JoinThree(Utf.LeadBits(0xe4, 3), 0xb8, 0xad);
    OverlongBits();
    hide Utf.Join, Utf.LeadBits, Utf.JoinAll;
    assert Utf.Skip(0xe4) == 3 && Utf.Skip(0xc0) == 2;
    assert Utf.DecodeChar(bytes) == 0x4e2d && Utf.DecodeChar(rest) == 0;
    assert Utf.Decode([]) == Some([]);
    var end: Text := [];
    assert Utf.Decode(rest) == Some([0] + end);
    assert Utf.Decode(bytes) == Some([0x4e2d] + ([0] + end));
    assert [0x4e2d] + ([0] + end) == [0x4e2d, 0];
  }

  lemma OverlongBits()
    ensures Utf.Join(Utf.LeadBits(0xc0, 2), 0x80) == 0
    ensures Utf.Join(Utf.Join(Utf.LeadBits(0xe4, 3), 0xb8), 0xad) == 0x4e2d
  {
  }

  /** Two five-byte forms of a character beyond what the encoder takes. */
  lemma AbortingQuery()
    ensures var form: seq<bv8>, q: Text := [0xf8, 0x88, 0x80, 0x80, 0x80], [0x200000, 0x200000];
            && Utf.Complete(form + form) && Utf.Decode(form + form) == Some(q)
            && HasToken(q, 2) && !Encodes(q, 2)
  {
    var form: seq<bv8>, q: Text := [0xf8, 0x88, 0x80, 0x80, 0x80], [0x200000, 0x200000];
    DecodesFiveBytes([]);
    DecodesFiveBytes(form);
    assert form + [] == form;
    assert Utf.Decode([]) == Some([]);
    assert [0x200000] + ([0x200000] + []) == q;
    assert !IsAlpha(0x200000) && !IsIgnored(0x200000);
    TwoGrams(0x200000, 0x200000);
    assert IsKept(q, 2, 0);
  }

  lemma DecodesFiveBytes(s: seq<bv8>)
    requires Utf.Complete(s)
    ensures var form: seq<bv8> := [0xf8, 0x88, 0x80, 0x80, 0x80];
            && Utf.Complete(form + s)
            && Utf.Decode(form + s) == match Utf.Decode(s) case None => None case Some(u) => Some([0x200000] + u)
  {
    var form: seq<bv8> := [0xf8, 0x88, 0x80, 0x80, 0x80];
    assert (form + s)[5..] == s && (form + s)[1..5] == [0x88, 0x80, 0x80, 0x80];
    FiveByteBits();
  }

  lemma FiveByteBits()
    ensures Utf.JoinAll(Utf.LeadBits(0xf8, 5), [0x88, 0x80, 0x80, 0x80]) == 0x200000
  {
    var rest: seq<bv8> := [0x88, 0x80, 0x80, 0x80];
    assert rest[1..] == [0x80, 0x80, 0x80];
    assert Utf.Join(Utf.LeadBits(0xf8, 5), 0x88) == 8;
    Utf.JoinFour(8, 0x80, 0x80, 0x80);
  }
}
