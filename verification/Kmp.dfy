/**
 Substring search of utstring.h (156-387): Knuth-Morris-Pratt with the strong failure table,
 from left to right and from right to left.
 */
module Kmp {

  type Str = seq<char>

  // ---------------------------------------------------------------------------
  // Occurrences and borders
  // ---------------------------------------------------------------------------

  predicate OccursAt(h: Str, p: Str, s: int)
  {
    0 <= s && s + |p| <= |h| && h[s..s + |p|] == p
  }

  /** The first `j` characters of `p` are also the last `j` of its first `i`. */
  predicate Border(p: Str, i: int, j: int)
  {
    0 <= j <= i <= |p| && p[..j] == p[i - j..i]
  }

  /** Entry `i` of the table: the longest border that the next character does not continue alike. */
  ghost predicate Strong(p: Str, i: int, v: int)
    requires 0 <= i < |p|
  {
    && (v == -1 || (0 <= v < i && Border(p, i, v) && p[v] != p[i]))
    && forall k :: v < k < i && Border(p, i, k) ==> p[k] == p[i]
  }

  /** The longest proper border. */
  ghost predicate Longest(p: Str, i: int, j: int)
  {
    if i == 0 then j == -1
    else 0 <= j < i && Border(p, i, j) && forall k :: j < k < i ==> !Border(p, i, k)
  }

  ghost predicate TableUpTo(p: Str, t: seq<int>, n: int)
    requires n <= |p| && n <= |t|
  {
    forall k :: 0 <= k < n ==> Strong(p, k, t[k])
  }

  /** The finished table: strong entries, and the longest proper border of the whole needle. */
  ghost predicate IsTable(p: Str, t: seq<int>)
  {
    |t| == |p| + 1 && TableUpTo(p, t, |p|) && Longest(p, |p|, t[|p|])
  }

  lemma BorderOfBorder(p: Str, i: int, j: int, k: int)
    requires Border(p, i, j) && k <= j
    ensures Border(p, i, k) <==> Border(p, j, k)
  {
    if 0 <= k {
      assert p[..j][j - k..] == p[j - k..j];
      assert p[i - j..i][j - k..] == p[i - k..i];
    }
  }

  lemma BorderStep(p: Str, i: int, k: int)
    requires 0 <= i < |p| && 0 <= k <= i
    ensures Border(p, i + 1, k + 1) <==> Border(p, i, k) && p[k] == p[i]
  {
    assert p[..k + 1] == p[..k] + [p[k]];
    assert p[i - k..i + 1] == p[i - k..i] + [p[i]];
  }

  /** Borders of `p[..i]` that `p[i]` could extend all lie at or below `j`. */
  ghost predicate RuledOut(p: Str, i: int, j: int)
    requires 0 <= i < |p|
  {
    forall k :: j < k < i && 0 <= k && Border(p, i, k) ==> p[k] != p[i]
  }

  /** Following the table keeps every candidate. */
  lemma FollowTable(p: Str, i: int, j: int, v: int)
    requires 0 <= j < i < |p| && Border(p, i, j) && p[i] != p[j] && Strong(p, j, v) && RuledOut(p, i, j)
    ensures v == -1 || (0 <= v < i && Border(p, i, v))
    ensures RuledOut(p, i, v)
  {
    if v >= 0 {
      BorderOfBorder(p, i, j, v);
    }
    forall k | v < k < i && 0 <= k && Border(p, i, k)
      ensures p[k] != p[i]
    {
      if k < j {
        BorderOfBorder(p, i, j, k);
      }
    }
  }

  /** The longest extendable border, extended, is the next longest border. */
  lemma ExtendLongest(p: Str, i: int, j: int)
    requires 0 <= i < |p| && -1 <= j < i && RuledOut(p, i, j)
    requires j >= 0 ==> Border(p, i, j) && p[j] == p[i]
    ensures Longest(p, i + 1, j + 1)
  {
    if j >= 0 {
      BorderStep(p, i, j);
    }
    var i1 := i + 1;
    forall k | j + 1 < k < i1
      ensures !Border(p, i1, k)
    {
      BorderStep(p, i, k - 1);
    }
  }

  /** The entry that goes with the longest border `j`. */
  lemma NewEntry(p: Str, i: int, j: int, w: int)
    requires 0 < i < |p| && Longest(p, i, j) && Strong(p, j, w)
    ensures Strong(p, i, if p[i] == p[j] then w else j)
  {
    if p[i] == p[j] {
      if w >= 0 {
        BorderOfBorder(p, i, j, w);
      }
      forall k | w < k < i && Border(p, i, k)
        ensures p[k] == p[i]
      {
        if k < j {
          BorderOfBorder(p, i, j, k);
        }
      }
    }
  }

  // ---------------------------------------------------------------------------
  // Left to right
  // ---------------------------------------------------------------------------

  /** _utstring_BuildTable. */
  method BuildTable(p: Str, t: array<int>)
    requires |p| > 0 && t.Length == |p| + 1
    modifies t
    ensures IsTable(p, t[..])
  {
    hide Border, Strong, Longest, RuledOut;
    var i, j := 0, -1;
    t[i] := j;
    FirstEntry(p);
    while i < |p|
      invariant 0 <= i <= |p| && Longest(p, i, j)
      invariant TableUpTo(p, t[..], if i < |p| then i + 1 else |p|)
      invariant i == |p| ==> t[i] == j
    {
      ghost var was := t[..];
      LongestRange(p, i, j);
      while j > -1 && p[i] != p[j]
        invariant -1 <= j < i && RuledOut(p, i, j) && (j >= 0 ==> Border(p, i, j))
        invariant t[..] == was
      {
        assert Strong(p, j, was[j]);
        FollowTable(p, i, j, t[j]);
        StrongRange(p, j, t[j]);
        j := t[j];
      }
      ExtendLongest(p, i, j);
      i, j := i + 1, j + 1;
      if i < |p| {
        assert Strong(p, j, was[j]);
        NewEntry(p, i, j, t[j]);
        if p[i] == p[j] {
          t[i] := t[j];
        } else {
          t[i] := j;
        }
        assert forall k :: 0 <= k < i ==> t[..][k] == was[k];
      } else {
        t[i] := j;
        assert forall k :: 0 <= k < i ==> t[..][k] == was[k];
      }
    }
  }

  lemma FirstEntry(p: Str)
    requires |p| > 0
    ensures Strong(p, 0, -1) && Longest(p, 0, -1)
  {
  }

  lemma LongestRange(p: Str, i: int, j: int)
    requires 0 <= i < |p| && Longest(p, i, j)
    ensures -1 <= j < i && RuledOut(p, i, j) && (j >= 0 ==> Border(p, i, j))
  {
  }

  lemma StrongRange(p: Str, i: int, v: int)
    requires 0 <= i < |p| && Strong(p, i, v)
    ensures -1 <= v < i
  {
  }

  /** The needle's first `i` characters stand before `j`, and no occurrence starts before `j - i`. */
  ghost predicate Matched(h: Str, p: Str, i: int, j: int)
  {
    && -1 <= i <= |p| && 0 <= j - i && j <= |h|
    && (i >= 0 ==> p[..i] == h[j - i..j])
    && forall s :: s < j - i ==> !OccursAt(h, p, s)
  }

  /** On a mismatch, the shift that the table proposes passes over no occurrence. */
  lemma ShiftIsSafe(h: Str, p: Str, i: int, j: int, v: int)
    requires Matched(h, p, i, j) && 0 <= i < |p| && j < |h| && p[i] != h[j] && Strong(p, i, v)
    ensures Matched(h, p, v, j)
  {
    if v >= 0 {
      assert p[..i][i - v..] == h[j - i..j][i - v..];
      assert h[j - i..j][i - v..] == h[j - v..j];
      assert p[i - v..i] == p[..i][i - v..];
    }
    forall s | s < j - v
      ensures !OccursAt(h, p, s)
    {
      if j - i <= s && OccursAt(h, p, s) {
        Overlap(h, p, i, j, s);
      }
    }
  }

  /** An occurrence that starts inside the matched part makes a border there. */
  lemma Overlap(h: Str, p: Str, i: int, j: int, s: int)
    requires 0 <= i < |p| && 0 <= j - i && j < |h| && p[..i] == h[j - i..j]
    requires OccursAt(h, p, s) && j - i <= s <= j
    ensures Border(p, i, j - s) && p[j - s] == h[j]
  {
    var k := j - s;
    assert p[k] == h[s..s + |p|][k];
    assert p[..k] == h[s..s + |p|][..k] == h[s..j];
    assert p[i - k..i] == p[..i][i - k..] == h[j - i..j][i - k..] == h[s..j];
  }

  lemma AdvanceMatch(h: Str, p: Str, i: int, j: int)
    requires Matched(h, p, i, j) && i < |p| && j < |h| && (i >= 0 ==> p[i] == h[j])
    ensures Matched(h, p, i + 1, j + 1)
  {
    if i >= 0 {
      assert p[..i + 1] == p[..i] + [p[i]];
      assert h[j - i..j + 1] == h[j - i..j] + [h[j]];
    }
  }

  /** _utstring_find on the first `hlen` characters; a negative length finds nothing. */
  method Find(h: Str, hlen: int, p: Str, t: array<int>) returns (r: int)
    requires |p| > 0 && IsTable(p, t[..]) && hlen <= |h|
    ensures var text := h[..if hlen < 0 then 0 else hlen];
            if r == -1 then forall s :: !OccursAt(text, p, s)
            else OccursAt(text, p, r) && forall s :: s < r ==> !OccursAt(text, p, s)
  {
    hide Strong, Matched, Longest;
    ghost var text := h[..if hlen < 0 then 0 else hlen];
    r := -1;
    var i, j := 0, 0;
    StartMatch(text, p);
    while j < hlen && hlen - j + i >= |p|
      invariant 0 <= i < |p| && 0 <= j && Matched(text, p, i, j)
      decreases hlen - j
    {
      while i > -1 && p[i] != h[j]
        invariant -1 <= i < |p| && Matched(text, p, i, j)
      {
        assert Strong(p, i, t[..][i]);
        ShiftIsSafe(text, p, i, j, t[i]);
        StrongRange(p, i, t[i]);
        i := t[i];
      }
      AdvanceMatch(text, p, i, j);
      i, j := i + 1, j + 1;
      if i >= |p| {
        FoundMatch(text, p, j);
        r := j - i;
        return;
      }
    }
    NoRoom(text, p, i, j);
  }

  lemma StartMatch(h: Str, p: Str)
    ensures Matched(h, p, 0, 0)
  {
  }

  lemma FoundMatch(h: Str, p: Str, j: int)
    requires Matched(h, p, |p|, j)
    ensures OccursAt(h, p, j - |p|) && forall s :: s < j - |p| ==> !OccursAt(h, p, s)
  {
    assert p[..|p|] == p;
  }

  lemma NoRoom(h: Str, p: Str, i: int, j: int)
    requires Matched(h, p, i, j) && |h| - j + i < |p|
    ensures forall s :: !OccursAt(h, p, s)
  {
  }

  // ---------------------------------------------------------------------------
  // Right to left: the same on mirrored strings
  // ---------------------------------------------------------------------------

  function Rev(s: Str): (r: Str)
    ensures |r| == |s| && forall k :: 0 <= k < |s| ==> r[k] == s[|s| - 1 - k]
  {
    seq(|s|, k requires 0 <= k < |s| => s[|s| - 1 - k])
  }

  /** A right-to-left table of `n + 1` entries, read as a left-to-right table. */
  function Mirror(t: seq<int>): (m: seq<int>)
    ensures |m| == |t| && forall k :: 0 <= k < |t| ==> m[k] == |t| - 2 - t[|t| - 1 - k]
  {
    seq(|t|, k requires 0 <= k < |t| => |t| - 2 - t[|t| - 1 - k])
  }

  lemma MirrorUpdate(t: seq<int>, i: nat, v: int)
    requires i < |t|
    ensures Mirror(t[i := v]) == Mirror(t)[|t| - 1 - i := |t| - 2 - v]
  {
  }

  lemma RevSlice(h: Str, s: nat, e: nat)
    requires s <= e <= |h|
    ensures Rev(h)[|h| - e..|h| - s] == Rev(h[s..e])
  {
    var a, b := Rev(h)[|h| - e..|h| - s], Rev(h[s..e]);
    forall k | 0 <= k < e - s
      ensures a[k] == b[k]
    {
      assert a[k] == Rev(h)[|h| - e + k] == h[e - 1 - k];
      assert b[k] == h[s..e][e - s - 1 - k] == h[e - 1 - k];
    }
  }

  lemma RevTwice(a: Str)
    ensures Rev(Rev(a)) == a
  {
  }

  lemma RevInjective(a: Str, b: Str)
    ensures Rev(a) == Rev(b) <==> a == b
  {
    hide Rev;
    RevTwice(a);
    RevTwice(b);
  }

  lemma OccursMirrored(h: Str, p: Str, s: int)
    ensures OccursAt(h, p, s) <==> OccursAt(Rev(h), Rev(p), |h| - |p| - s)
  {
    hide Rev;
    if 0 <= s && s + |p| <= |h| {
      var x := h[s..s + |p|];
      RevSlice(h, s, s + |p|);
      RevInjective(x, p);
      assert |h| - |p| - s + |p| == |h| - s;
    }
  }

  /** Entry `t[i + 1]` of the right-to-left table is entry `n - 1 - i` of the mirrored one. */
  lemma StoreMirrored(q: Str, was: seq<int>, i: int, v: int)
    requires |was| == |q| + 1 && -1 <= i < |q| && TableUpTo(q, Mirror(was), |q| - 1 - i)
    ensures TableUpTo(q, Mirror(was[i + 1 := v]), |q| - 1 - i)
    ensures Mirror(was[i + 1 := v])[|q| - 1 - i] == |q| - 1 - v
  {
    hide Strong, Mirror;
    MirrorUpdate(was, i + 1, v);
  }

  /** The inner loop of _utstring_BuildTableR. */
  method FollowR(p: Str, t: array<int>, i: int, j0: int) returns (j: int)
    requires t.Length == |p| + 1 && 0 <= i < |p|
    requires TableUpTo(Rev(p), Mirror(t[..]), |p| - i) && Longest(Rev(p), |p| - 1 - i, |p| - 1 - j0)
    ensures i < j <= |p|
    ensures Longest(Rev(p), |p| - i, |p| - j)
  {
    hide Border, Strong, Longest, RuledOut, Mirror, Rev;
    ghost var q, n := Rev(p), |p|;
    j := j0;
    LongestRange(q, n - 1 - i, n - 1 - j);
    while j < |p| && p[i] != p[j]
      invariant i < j <= n && RuledOut(q, n - 1 - i, n - 1 - j) && (j < n ==> Border(q, n - 1 - i, n - 1 - j))
      decreases n - j
    {
      assert Strong(q, n - 1 - j, Mirror(t[..])[n - 1 - j]);
      FollowTable(q, n - 1 - i, n - 1 - j, n - 1 - t[j + 1]);
      StrongRange(q, n - 1 - j, n - 1 - t[j + 1]);
      j := t[j + 1];
    }
    ExtendLongest(q, n - 1 - i, n - 1 - j);
  }

  /** One round of the outer loop of _utstring_BuildTableR. */
  method NextEntryR(p: Str, t: array<int>, i0: int, j0: int) returns (i: int, j: int)
    requires t.Length == |p| + 1 && 0 <= i0 < |p|
    requires TableUpTo(Rev(p), Mirror(t[..]), |p| - i0) && Longest(Rev(p), |p| - 1 - i0, |p| - 1 - j0)
    modifies t
    ensures i == i0 - 1 && Longest(Rev(p), |p| - 1 - i, |p| - 1 - j)
    ensures TableUpTo(Rev(p), Mirror(t[..]), if i >= 0 then |p| - i else |p|)
    ensures i == -1 ==> t[0] == j
  {
    hide Border, Strong, Longest, Mirror, Rev;
    ghost var q, n, was := Rev(p), |p|, t[..];
    j := FollowR(p, t, i0, j0);
    i, j := i0 - 1, j - 1;
    LongestBelow(q, n - 1 - i, n - 1 - j);
    var entry := j;
    if i >= 0 {
      assert Strong(q, n - 1 - j, Mirror(was)[n - 1 - j]);
      NewEntry(q, n - 1 - i, n - 1 - j, n - 1 - t[j + 1]);
      if p[i] == p[j] {
        entry := t[j + 1];
      }
    }
    StoreMirrored(q, was, i, entry);
    t[i + 1] := entry;
    assert t[..] == was[i + 1 := entry];
  }

  /** _utstring_BuildTableR: the mirror image of the left-to-right table of the mirrored needle. */
  method BuildTableR(p: Str, t: array<int>)
    requires |p| > 0 && t.Length == |p| + 1
    modifies t
    ensures IsTable(Rev(p), Mirror(t[..]))
  {
    hide Border, Strong, Longest, Mirror, Rev;
    ghost var q, n := Rev(p), |p|;
    var i := |p| - 1;
    var j := i + 1;
    ghost var start := t[..];
    t[i + 1] := j;
    assert t[..] == start[n := n];
    StoreMirrored(q, start, n - 1, n);
    FirstEntry(q);
    while i >= 0
      invariant -1 <= i < n && Longest(q, n - 1 - i, n - 1 - j)
      invariant TableUpTo(q, Mirror(t[..]), if i >= 0 then n - i else n)
      invariant i == -1 ==> t[0] == j
    {
      i, j := NextEntryR(p, t, i, j);
    }
  }

  lemma LongestBelow(p: Str, i: int, j: int)
    requires 0 < i && Longest(p, i, j)
    ensures 0 <= j < i
  {
  }

  /** The inner loop of _utstring_findR. */
  method SlideR(h: Str, ghost m: nat, p: Str, t: array<int>, i0: int, j: int) returns (i: int)
    requires t.Length == |p| + 1 && IsTable(Rev(p), Mirror(t[..])) && 0 <= i0 < |p| && 0 <= j < m <= |h|
    requires Matched(Rev(h[..m]), Rev(p), |p| - 1 - i0, m - 1 - j)
    ensures 0 <= i <= |p| && Matched(Rev(h[..m]), Rev(p), |p| - i, m - j)
  {
    hide Strong, Matched, Longest, Mirror, Rev, OccursAt;
    ghost var g, q, n := Rev(h[..m]), Rev(p), |p|;
    i := i0;
    while i < |p| && p[i] != h[j]
      invariant 0 <= i <= n && Matched(g, q, n - 1 - i, m - 1 - j)
      decreases n - i
    {
      assert g[m - 1 - j] == h[j] && q[n - 1 - i] == p[i];
      assert Strong(q, n - 1 - i, Mirror(t[..])[n - 1 - i]);
      ShiftIsSafe(g, q, n - 1 - i, m - 1 - j, n - 1 - t[i + 1]);
      StrongRange(q, n - 1 - i, n - 1 - t[i + 1]);
      i := t[i + 1];
    }
    assert i < n ==> g[m - 1 - j] == h[j] && q[n - 1 - i] == p[i];
    AdvanceMatch(g, q, n - 1 - i, m - 1 - j);
  }

  /** _utstring_findR on the first `hlen` characters; a negative length finds nothing. */
  method FindR(h: Str, hlen: int, p: Str, t: array<int>) returns (r: int)
    requires |p| > 0 && t.Length == |p| + 1 && IsTable(Rev(p), Mirror(t[..])) && hlen <= |h|
    ensures var text := h[..if hlen < 0 then 0 else hlen];
            if r == -1 then forall s :: !OccursAt(text, p, s)
            else OccursAt(text, p, r) && forall s :: s > r ==> !OccursAt(text, p, s)
  {
    hide Strong, Matched, Longest, Mirror, Rev, OccursAt, IsTable;
    ghost var m, n := if hlen < 0 then 0 else hlen, |p|;
    ghost var text := h[..m];
    ghost var g, q := Rev(text), Rev(p);
    r := -1;
    var j := hlen - 1;
    var i := |p| - 1;
    StartMatch(g, q);
    while j >= 0 && j >= i
      invariant 0 <= i < n && j < m && (hlen >= 0 ==> -1 <= j && Matched(g, q, n - 1 - i, m - 1 - j))
      invariant hlen < 0 ==> j < 0 && i == n - 1
      decreases j
    {
      i := SlideR(h, m, p, t, i, j);
      i, j := i - 1, j - 1;
      if i < 0 {
        FoundMatch(g, q, m - 1 - j);
        r := j + 1;
        LastOccurrence(text, p, r);
        return;
      }
    }
    if hlen >= 0 {
      NoRoom(g, q, n - 1 - i, m - 1 - j);
    } else {
      NoRoom(g, q, 0, 0);
    }
    NoOccurrence(text, p);
  }

  lemma LastOccurrence(h: Str, p: Str, r: int)
    requires OccursAt(Rev(h), Rev(p), |h| - |p| - r)
    requires forall s :: s < |h| - |p| - r ==> !OccursAt(Rev(h), Rev(p), s)
    ensures OccursAt(h, p, r) && forall s :: s > r ==> !OccursAt(h, p, s)
  {
    hide OccursAt, Rev;
    OccursMirrored(h, p, r);
    forall s | s > r
      ensures !OccursAt(h, p, s)
    {
      OccursMirrored(h, p, s);
    }
  }

  lemma NoOccurrence(h: Str, p: Str)
    requires forall s :: !OccursAt(Rev(h), Rev(p), s)
    ensures forall s :: !OccursAt(h, p, s)
  {
    hide OccursAt, Rev;
    forall s
      ensures !OccursAt(h, p, s)
    {
      OccursMirrored(h, p, s);
    }
  }

  // ---------------------------------------------------------------------------
  // One-time searches
  // ---------------------------------------------------------------------------

  /** `P_StartPosition` of either sign; -1 means the last position. */
  function StartOf(len: nat, start: int): int
  {
    if start < 0 then len + start else start
  }

  lemma OccursInSuffix(d: Str, p: Str, lo: nat, s: int)
    requires lo <= |d|
    ensures OccursAt(d[lo..], p, s) <==> s >= 0 && OccursAt(d, p, lo + s)
  {
    if 0 <= s && s + |p| <= |d| - lo {
      assert d[lo..][s..s + |p|] == d[lo + s..lo + s + |p|];
    }
  }

  lemma OccursFits(h: Str, p: Str, s: int)
    ensures OccursAt(h, p, s) ==> 0 <= s && s + |p| <= |h|
  {
  }

  lemma OccursInPrefix(d: Str, p: Str, m: nat, s: int)
    requires m <= |d|
    ensures OccursAt(d[..m], p, s) <==> s + |p| <= m && OccursAt(d, p, s)
  {
    if 0 <= s && s + |p| <= m {
      assert d[..m][s..s + |p|] == d[s..s + |p|];
    }
  }

  /**
   utstring_find: the first occurrence at or after the start position, -1 when there is none.
   The comparison of the two lengths is unsigned in the source, so a start beyond the end is
   searched, and nothing is found.
   */
  method UtstringFind(d: Str, start: int, p: Str) returns (r: int)
    requires start >= -|d|
    ensures var lo := if start < 0 then |d| + start else start;
            if r == -1 then p == [] || forall s :: s >= lo ==> !OccursAt(d, p, s)
            else p != [] && r >= lo && OccursAt(d, p, r) && forall s :: lo <= s < r ==> !OccursAt(d, p, s)
  {
    hide IsTable, OccursAt;
    var lo := StartOf(|d|, start);
    var hlen := |d| - lo;
    r := -1;
    if (hlen < 0 || hlen >= |p|) && |p| > 0 {
      var t := new int[|p| + 1];
      BuildTable(p, t);
      if hlen < 0 {
        r := Find([], hlen, p, t);
        OccursFits([], p, r);
        NoneBeyond(d, p, lo);
      } else {
        r := Find(d[lo..], hlen, p, t);
        assert d[lo..][..if hlen < 0 then 0 else hlen] == d[lo..];
        FirstInSuffix(d, p, lo, r);
        if r >= 0 {
          r := r + lo;
        }
      }
    } else if p != [] {
      NoneBeyond(d, p, lo);
    }
  }

  lemma NoneBeyond(d: Str, p: Str, lo: int)
    requires |d| - lo < |p|
    ensures forall s :: s >= lo ==> !OccursAt(d, p, s)
  {
  }

  lemma FirstInSuffix(d: Str, p: Str, lo: nat, r: int)
    requires lo <= |d|
    requires if r == -1 then forall s :: !OccursAt(d[lo..], p, s)
             else OccursAt(d[lo..], p, r) && forall s :: s < r ==> !OccursAt(d[lo..], p, s)
    ensures r >= -1
    ensures if r == -1 then forall s :: s >= lo ==> !OccursAt(d, p, s)
            else OccursAt(d, p, lo + r) && forall s :: lo <= s < lo + r ==> !OccursAt(d, p, s)
  {
    hide OccursAt;
    OccursInSuffix(d, p, lo, r);
    forall s | s >= lo
      ensures OccursAt(d, p, s) <==> OccursAt(d[lo..], p, s - lo)
    {
      OccursInSuffix(d, p, lo, s - lo);
    }
  }

  /** utstring_findR: the last occurrence that ends at or before the start position, -1 when there is none. */
  method UtstringFindR(d: Str, start: int, p: Str) returns (r: int)
    requires start < |d|
    ensures var hi := if start < 0 then |d| + start + 1 else start + 1;
            if r == -1 then p == [] || forall s :: s + |p| <= hi ==> !OccursAt(d, p, s)
            else p != [] && r + |p| <= hi && OccursAt(d, p, r)
                 && forall s :: s > r && s + |p| <= hi ==> !OccursAt(d, p, s)
  {
    hide IsTable, OccursAt, Rev, Mirror;
    var hlen := StartOf(|d|, start) + 1;
    r := -1;
    if (hlen < 0 || hlen >= |p|) && |p| > 0 {
      var t := new int[|p| + 1];
      BuildTableR(p, t);
      r := FindR(d, hlen, p, t);
      LastInPrefix(d, p, hlen, r);
    } else if p != [] {
      NoneBefore(d, p, hlen);
    }
  }

  lemma NoneBefore(d: Str, p: Str, hi: int)
    requires hi < |p|
    ensures forall s :: s + |p| <= hi ==> !OccursAt(d, p, s)
  {
  }

  lemma LastInPrefix(d: Str, p: Str, hi: int, r: int)
    requires hi <= |d|
    requires var text := d[..if hi < 0 then 0 else hi];
             if r == -1 then forall s :: !OccursAt(text, p, s)
             else OccursAt(text, p, r) && forall s :: s > r ==> !OccursAt(text, p, s)
    ensures if r == -1 then forall s :: s + |p| <= hi ==> !OccursAt(d, p, s)
            else OccursAt(d, p, r) && (p != [] ==> r + |p| <= hi)
                 && forall s :: s > r && s + |p| <= hi ==> !OccursAt(d, p, s)
  {
    hide OccursAt;
    var m := if hi < 0 then 0 else hi;
    OccursFits(d[..m], p, r);
    forall s
      ensures OccursAt(d[..m], p, s) <==> s + |p| <= m && OccursAt(d, p, s)
    {
      OccursInPrefix(d, p, m, s);
    }
  }
}
