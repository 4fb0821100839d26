/**
 Splitting text into tokens (token.c:15-128 and the loop of token.c:258-281): maximal runs of
 Latin letters, and n-grams over everything else.
 */
module Tokenizer {

  type UTF32Char = bv32

  type Text = seq<UTF32Char>

  /** wiser_is_ignored_char. */
  predicate IsIgnored(c: UTF32Char)
  {
    || c == 0x20 || (0x09 <= c && c <= 0x0d)
    || (0x21 <= c && c <= 0x2f) || (0x3a <= c && c <= 0x40)
    || (0x5b <= c && c <= 0x60) || (0x7b <= c && c <= 0x7e)
    || (0x3000 <= c && c <= 0x3002)
    || c == 0xff08 || c == 0xff09 || c == 0xff01 || c == 0xff0c || c == 0xff1a || c == 0xff1b || c == 0xff1f
  }

  /** wiser_isalpha. */
  predicate IsAlpha(c: UTF32Char)
  {
    (0x41 <= c && c <= 0x5a) || (0x61 <= c && c <= 0x7a)
  }

  /**
   The two tables, character by character: below 0x80, a printable character is a letter, a digit or ignored, and of the
   others only the five control characters from tab to carriage return and the space are ignored; above, ten are.
   */
  lemma CharacterClasses(c: UTF32Char)
    ensures IsAlpha(c) <==> 'A' as int <= c as int <= 'Z' as int || 'a' as int <= c as int <= 'z' as int
    ensures 0x21 <= c && c <= 0x7e ==>
              (IsIgnored(c) <==> !IsAlpha(c) && !('0' as int <= c as int <= '9' as int))
    ensures c < 0x21 ==> (IsIgnored(c) <==> c in {0x09, 0x0a, 0x0b, 0x0c, 0x0d, 0x20})
    ensures 0x7f <= c ==>
              (IsIgnored(c) <==>
               c in {0x3000, 0x3001, 0x3002, 0xff01, 0xff08, 0xff09, 0xff0c, 0xff1a, 0xff1b, 0xff1f})
  {
  }

  lemma AlphaIsNotIgnored(c: UTF32Char)
    ensures !(IsAlpha(c) && IsIgnored(c))
  {
  }

  // ---------------------------------------------------------------------------
  // ngram_next
  // ---------------------------------------------------------------------------

  function SkipIgnored(text: Text, i: nat): (s: nat)
    requires i <= |text|
    ensures i <= s <= |text|
    ensures forall k :: i <= k < s ==> IsIgnored(text[k])
    ensures s < |text| ==> !IsIgnored(text[s])
    decreases |text| - i
  {
    if i < |text| && IsIgnored(text[i]) then SkipIgnored(text, i + 1) else i
  }

  /** End of the run of Latin letters that goes on at `i`. */
  function RunEnd(text: Text, i: nat): (e: nat)
    requires i <= |text|
    ensures i <= e <= |text|
    ensures forall k :: i <= k < e ==> IsAlpha(text[k])
    ensures e < |text| ==> !IsAlpha(text[e])
    decreases |text| - i
  {
    if i < |text| && IsAlpha(text[i]) then RunEnd(text, i + 1) else i
  }

  /** Up to `n` characters from `i`, stopping before an ignored character, a letter or the end. */
  function GramEnd(text: Text, i: nat, n: nat): (e: nat)
    requires i <= |text|
    ensures i <= e <= |text| && e - i <= n
    ensures forall k :: i <= k < e ==> !IsIgnored(text[k]) && !IsAlpha(text[k])
    ensures e - i < n && e < |text| ==> IsIgnored(text[e]) || IsAlpha(text[e])
    decreases n
  {
    if n > 0 && i < |text| && !IsIgnored(text[i]) && !IsAlpha(text[i]) then GramEnd(text, i + 1, n - 1) else i
  }

  function TokenEnd(text: Text, s: nat, n: nat): (e: nat)
    requires s < |text| && !IsIgnored(text[s]) && n > 0
    ensures s < e <= |text|
  {
    if IsAlpha(text[s]) then RunEnd(text, s) else GramEnd(text, s, n)
  }

  function NextStart(text: Text, s: nat, n: nat): (t: nat)
    requires s < |text| && !IsIgnored(text[s]) && n > 0
    ensures s < t <= |text|
  {
    if IsAlpha(text[s]) then RunEnd(text, s) else s + 1
  }

  /**
   A token that begins with a letter is the whole run of letters; any other has up to `n` characters, fewer only
   before an ignored character, a letter or the end.
   */
  lemma TokenExtent(text: Text, i: nat, n: nat)
    requires i < |text| && !IsIgnored(text[i]) && n > 0
    ensures var e := TokenEnd(text, i, n);
            if IsAlpha(text[i]) then
              (forall k :: i <= k < e ==> IsAlpha(text[k])) && (e == |text| || !IsAlpha(text[e]))
            else
              && e - i <= n
              && (forall k :: i <= k < e ==> !IsIgnored(text[k]) && !IsAlpha(text[k]))
              && (e - i == n || e == |text| || IsIgnored(text[e]) || IsAlpha(text[e]))
  {
    hide IsIgnored, IsAlpha;
  }

  /** ngram_next from offset `from`; length 0 says that the text is used up. */
  method NgramNext(text: Text, from: nat, n: nat) returns (len: nat, start: nat, next: nat)
    requires from <= |text| && n > 0
    ensures from <= start <= |text| && forall k :: from <= k < start ==> IsIgnored(text[k])
    ensures start < |text| ==> !IsIgnored(text[start]) && 0 < len <= |text| - start
    ensures start < |text| && IsAlpha(text[start]) ==>
              && (forall k :: start <= k < start + len ==> IsAlpha(text[k]))
              && (start + len == |text| || !IsAlpha(text[start + len])) && next == start + len
    ensures start < |text| && !IsAlpha(text[start]) ==>
              && len <= n && (forall k :: start <= k < start + len ==> !IsIgnored(text[k]) && !IsAlpha(text[k]))
              && (len == n || start + len == |text| || IsIgnored(text[start + len]) || IsAlpha(text[start + len]))
              && next == start + 1
    ensures start == SkipIgnored(text, from)
    ensures len == 0 <==> start == |text|
    ensures start < |text| ==> start + len == TokenEnd(text, start, n) && next == NextStart(text, start, n)
  {
    hide IsIgnored, IsAlpha, SkipIgnored, RunEnd, GramEnd;
    start := SkipChars(text, from);
    if start == |text| {
      return 0, start, start;
    }
    var p;
    if IsAlpha(text[start]) {
      p := LetterRun(text, start);
      next := p;
    } else {
      p := Gram(text, start, n);
      next := start + 1;
    }
    len := p - start;
  }

  /** `for (; ustr < ustr_end && wiser_is_ignored_char(*ustr); ustr++)` */
  method SkipChars(text: Text, from: nat) returns (start: nat)
    requires from <= |text|
    ensures start == SkipIgnored(text, from)
  {
    hide IsIgnored;
    start := from;
    while start < |text| && IsIgnored(text[start])
      invariant from <= start <= |text| && SkipIgnored(text, start) == SkipIgnored(text, from)
    {
      start := start + 1;
    }
  }

  /** `for (p = ustr; p < ustr_end && wiser_isalpha(*p); p++)` */
  method LetterRun(text: Text, start: nat) returns (p: nat)
    requires start <= |text|
    ensures p == RunEnd(text, start)
  {
    hide IsAlpha;
    p := start;
    while p < |text| && IsAlpha(text[p])
      invariant start <= p <= |text| && RunEnd(text, p) == RunEnd(text, start)
    {
      p := p + 1;
    }
  }

  /** The loop over the characters of an n-gram. */
  method Gram(text: Text, start: nat, n: nat) returns (p: nat)
    requires start <= |text|
    ensures p == GramEnd(text, start, n)
  {
    hide IsIgnored, IsAlpha;
    p := start;
    var i := 0;
    while i < n && p < |text| && !IsIgnored(text[p]) && !IsAlpha(text[p])
      invariant 0 <= i <= n && p == start + i <= |text|
      invariant GramEnd(text, p, n - i) == GramEnd(text, start, n)
    {
      i := i + 1;
      p := p + 1;
    }
  }

  // ---------------------------------------------------------------------------
  // The stream of tokens
  // ---------------------------------------------------------------------------

  /** Offsets and ends of the tokens found from `from` on, in the order of the scan. */
  function Scan(text: Text, from: nat, n: nat): (ts: seq<(nat, nat)>)
    requires from <= |text| && n > 0
    ensures forall t :: t in ts ==> t.0 <= t.1 <= |text|
    decreases |text| - from
  {
    var s := SkipIgnored(text, from);
    if s == |text| then [] else [(s, TokenEnd(text, s, n))] + Scan(text, NextStart(text, s, n), n)
  }

  /** The tokens themselves; the place of a token in this sequence is its position. */
  function Stream(text: Text, n: nat): (r: seq<Text>)
    requires n > 0
    ensures |r| == |Scan(text, 0, n)|
  {
    var ts := Scan(text, 0, n);
    seq(|ts|, k requires 0 <= k < |ts| => text[ts[k].0..ts[k].1])
  }

  // ---------------------------------------------------------------------------
  // Where tokens start
  // ---------------------------------------------------------------------------

  /** Not ignored, and either no letter or the first letter of a maximal run. */
  predicate IsStart(text: Text, i: nat)
  {
    i < |text| && !IsIgnored(text[i]) && (IsAlpha(text[i]) ==> i == 0 || !IsAlpha(text[i - 1]))
  }

  /** `i` does not split a run of letters. */
  predicate IsCut(text: Text, i: nat)
    requires i <= |text|
  {
    0 < i < |text| && IsAlpha(text[i]) ==> !IsAlpha(text[i - 1])
  }

  /** Number of token starts before `i`. */
  function CountStarts(text: Text, i: nat): (c: nat)
    requires i <= |text|
  {
    if i == 0 then 0 else CountStarts(text, i - 1) + if IsStart(text, i - 1) then 1 else 0
  }

  lemma {:induction false} NoStartsBetween(text: Text, i: nat, j: nat)
    requires i <= j <= |text| && forall k :: i <= k < j ==> !IsStart(text, k)
    ensures CountStarts(text, j) == CountStarts(text, i)
    decreases j
  {
    if i < j {
      NoStartsBetween(text, i, j - 1);
    }
  }

  lemma {:induction false} StartsMonotone(text: Text, i: nat, j: nat)
    requires i <= j <= |text|
    ensures CountStarts(text, i) <= CountStarts(text, j)
    decreases j
  {
    if i < j {
      StartsMonotone(text, i, j - 1);
    }
  }

  /** From a cut on, the scan finds as many tokens as there are starts. */
  lemma {:induction false} ScanLength(text: Text, from: nat, n: nat)
    requires from <= |text| && n > 0 && IsCut(text, from)
    ensures |Scan(text, from, n)| == CountStarts(text, |text|) - CountStarts(text, from)
    decreases |text| - from
  {
    hide IsIgnored, IsAlpha, IsCut, TokenEnd, NextStart;
    ScanStep(text, from, n);
    if SkipIgnored(text, from) < |text| {
      ScanLength(text, NextStart(text, SkipIgnored(text, from), n), n);
    }
  }

  /** One step of the scan passes exactly one start, and stops at a cut. */
  lemma ScanStep(text: Text, from: nat, n: nat)
    requires from <= |text| && n > 0 && IsCut(text, from)
    ensures var s := SkipIgnored(text, from);
            && CountStarts(text, s) == CountStarts(text, from)
            && (s < |text| ==>
                  && IsStart(text, s) && IsCut(text, NextStart(text, s, n))
                  && CountStarts(text, NextStart(text, s, n)) == CountStarts(text, from) + 1)
  {
    hide IsIgnored, IsAlpha, TokenEnd, NextStart;
    var s := SkipIgnored(text, from);
    NoStartsBetween(text, from, s);
    if s < |text| {
      FirstTokenIsStart(text, from, s);
      AfterToken(text, s, n);
      NoStartsBetween(text, s + 1, NextStart(text, s, n));
    }
  }

  /** Entry `k` of the scan is the `k`-th start, with the end that its first character calls for. */
  lemma {:induction false} ScanAt(text: Text, from: nat, n: nat, k: nat)
    requires from <= |text| && n > 0 && IsCut(text, from) && k < |Scan(text, from, n)|
    ensures var (s, e) := Scan(text, from, n)[k];
            IsStart(text, s) && e == TokenEnd(text, s, n) && CountStarts(text, s) == CountStarts(text, from) + k
    decreases k
  {
    hide IsIgnored, IsAlpha, IsCut, TokenEnd, NextStart;
    ScanStep(text, from, n);
    if k > 0 {
      ScanAt(text, NextStart(text, SkipIgnored(text, from), n), n, k - 1);
    }
  }

  lemma FirstTokenIsStart(text: Text, from: nat, s: nat)
    requires from <= |text| && IsCut(text, from) && s == SkipIgnored(text, from) < |text|
    ensures IsStart(text, s)
  {
    hide IsIgnored, IsAlpha;
    if s > from {
      assert IsIgnored(text[s - 1]);
      AlphaIsNotIgnored(text[s - 1]);
    }
  }

  /** The scan goes on at a cut, and passes over no other start. */
  lemma AfterToken(text: Text, s: nat, n: nat)
    requires s < |text| && !IsIgnored(text[s]) && n > 0
    ensures IsCut(text, NextStart(text, s, n))
    ensures forall k :: s < k < NextStart(text, s, n) ==> !IsStart(text, k)
  {
    hide IsIgnored, IsAlpha;
  }

  lemma {:induction false} StartIsCounted(text: Text, i: nat, j: nat)
    requires i < j <= |text| && IsStart(text, i)
    ensures CountStarts(text, i) < CountStarts(text, j)
  {
    StartsMonotone(text, i + 1, j);
  }

  /** Starts with the same count are the same start. */
  lemma CountIdentifies(text: Text, i: nat, j: nat)
    requires IsStart(text, i) && IsStart(text, j) && CountStarts(text, i) == CountStarts(text, j)
    ensures i == j
  {
    if i < j {
      StartIsCounted(text, i, j);
    } else if j < i {
      StartIsCounted(text, j, i);
    }
  }

  /**
   The token stream in closed form: the token that starts at `i` stands at position
   CountStarts(i), it runs to TokenEnd(i), and there are no other tokens.
   */
  lemma StreamClosedForm(text: Text, n: nat)
    requires n > 0
    ensures |Stream(text, n)| == CountStarts(text, |text|)
    ensures forall i: nat :: IsStart(text, i) ==>
              && CountStarts(text, i) < |Stream(text, n)|
              && Stream(text, n)[CountStarts(text, i)] == text[i..TokenEnd(text, i, n)]
    ensures forall k: nat :: k < |Stream(text, n)| ==>
              var i := Scan(text, 0, n)[k].0;
              IsStart(text, i) && CountStarts(text, i) == k && Stream(text, n)[k] == text[i..TokenEnd(text, i, n)]
  {
    hide IsIgnored, IsAlpha, TokenEnd;
    ScanLength(text, 0, n);
    forall k: nat | k < |Stream(text, n)|
      ensures var i := Scan(text, 0, n)[k].0; IsStart(text, i) && CountStarts(text, i) == k
      ensures var i := Scan(text, 0, n)[k].0; Stream(text, n)[k] == text[i..TokenEnd(text, i, n)]
    {
      ScanAt(text, 0, n, k);
    }
    forall i: nat | IsStart(text, i)
      ensures CountStarts(text, i) < |Stream(text, n)|
      ensures Stream(text, n)[CountStarts(text, i)] == text[i..TokenEnd(text, i, n)]
    {
      StreamAt(text, n, i);
    }
  }

  lemma StreamAt(text: Text, n: nat, i: nat)
    requires n > 0 && IsStart(text, i)
    ensures CountStarts(text, i) < |Stream(text, n)|
    ensures Stream(text, n)[CountStarts(text, i)] == text[i..TokenEnd(text, i, n)]
  {
    hide TokenEnd;
    ScanLength(text, 0, n);
    StartIsCounted(text, i, |text|);
    ScanAt(text, 0, n, CountStarts(text, i));
    CountIdentifies(text, i, Scan(text, 0, n)[CountStarts(text, i)].0);
  }

  // ---------------------------------------------------------------------------
  // A piece of text inside a longer one
  // ---------------------------------------------------------------------------

  /** `q` stands at offset `o` of `text` without splitting a run of letters at either end. */
  predicate CutOut(text: Text, o: nat, q: Text)
  {
    o + |q| <= |text| && text[o..o + |q|] == q && IsCut(text, o) && IsCut(text, o + |q|)
  }

  lemma StartInside(text: Text, o: nat, q: Text, i: nat)
    requires CutOut(text, o, q) && i < |q|
    ensures IsStart(text, o + i) == IsStart(q, i)
  {
    hide IsIgnored, IsAlpha;
    assert text[o + i] == q[i];
    if i > 0 {
      assert text[o + i - 1] == q[i - 1];
    }
  }

  lemma {:induction false} CountInside(text: Text, o: nat, q: Text, i: nat)
    requires CutOut(text, o, q) && i <= |q|
    ensures CountStarts(text, o + i) == CountStarts(text, o) + CountStarts(q, i)
    decreases i
  {
    hide IsStart;
    if i > 0 {
      CountInside(text, o, q, i - 1);
      StartInside(text, o, q, i - 1);
    }
  }

  lemma {:induction false} RunInside(text: Text, o: nat, q: Text, i: nat)
    requires CutOut(text, o, q) && i < |q| && IsAlpha(q[i])
    ensures RunEnd(text, o + i) == o + RunEnd(q, i)
    decreases |q| - i
  {
    hide IsIgnored, IsAlpha;
    assert text[o + i] == q[i];
    if i + 1 < |q| {
      assert text[o + i + 1] == q[i + 1];
      if IsAlpha(q[i + 1]) {
        RunInside(text, o, q, i + 1);
      }
    }
  }

  lemma {:induction false} GramInside(text: Text, o: nat, q: Text, i: nat, n: nat)
    requires CutOut(text, o, q) && i <= |q| && GramEnd(q, i, n) == i + n
    ensures GramEnd(text, o + i, n) == o + i + n
    decreases n
  {
    hide IsIgnored, IsAlpha, IsCut;
    if n > 0 {
      assert text[o + i] == q[i];
      GramInside(text, o, q, i + 1, n - 1);
    }
  }

  /**
   Every full-length token of `q` reappears in the text around it, shifted by the number of
   tokens before `q`.
   */
  lemma StreamInside(text: Text, o: nat, q: Text, n: nat, b: nat)
    requires n > 0 && CutOut(text, o, q) && b < |Stream(q, n)| && |Stream(q, n)[b]| >= n
    ensures CountStarts(text, o) + b < |Stream(text, n)|
    ensures Stream(text, n)[CountStarts(text, o) + b] == Stream(q, n)[b]
  {
    hide IsIgnored, IsAlpha, CutOut, TokenEnd;
    ScanAt(q, 0, n, b);
    var i := Scan(q, 0, n)[b].0;
    StreamAt(q, n, i);
    TokenInside(text, o, q, n, i);
    StreamAt(text, n, o + i);
  }

  lemma TokenInside(text: Text, o: nat, q: Text, n: nat, i: nat)
    requires n > 0 && CutOut(text, o, q) && IsStart(q, i) && TokenEnd(q, i, n) - i >= n
    ensures IsStart(text, o + i) && CountStarts(text, o + i) == CountStarts(text, o) + CountStarts(q, i)
    ensures TokenEnd(text, o + i, n) == o + TokenEnd(q, i, n)
    ensures text[o + i..TokenEnd(text, o + i, n)] == q[i..TokenEnd(q, i, n)]
  {
    hide IsIgnored, IsAlpha, CountStarts;
    StartInside(text, o, q, i);
    CountInside(text, o, q, i);
    assert text[o + i] == q[i];
    if IsAlpha(q[i]) {
      RunInside(text, o, q, i);
    } else {
      GramInside(text, o, q, i, n);
    }
    SliceInside(text, o, q, i, TokenEnd(q, i, n));
  }

  lemma SliceInside(text: Text, o: nat, q: Text, i: nat, j: nat)
    requires CutOut(text, o, q) && i <= j <= |q|
    ensures text[o + i..o + j] == q[i..j]
  {
    hide IsIgnored, IsAlpha, IsCut;
    forall k | i <= k < j
      ensures text[o + k] == q[k]
    {
      assert text[o..o + |q|][k] == text[o + k];
    }
  }
}
