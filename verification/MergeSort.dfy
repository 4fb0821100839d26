/**
 Bottom-up merge sort on sequences, in the shape of Tatham's list sort that HASH_SRT
 (uthash.h:719-796) and LL_SORT2 (utlist.h:108-165) use: runs of length 1, 2, 4, ... are
 merged pairwise until one pass needs a single merge.

 `leq(a, b)` stands for `cmpfcn(a, b) <= 0`.
 */
module MergeSort {
  import opened Wrappers

  type Leq<!T> = (T, T) -> bool

  function Min(a: nat, b: nat): nat
  {
    if a <= b then a else b
  }

  /** The inner merge: the left run wins ties. */
  function Merge<T>(leq: Leq<T>, a: seq<T>, b: seq<T>): (r: seq<T>)
    ensures |r| == |a| + |b|
    decreases |a| + |b|
  {
    if a == [] then b
    else if b == [] then a
    else if leq(a[0], b[0]) then [a[0]] + Merge(leq, a[1..], b)
    else [b[0]] + Merge(leq, a, b[1..])
  }

  /** One pass: neighbouring runs of length `k` are merged. */
  function Pass<T>(leq: Leq<T>, s: seq<T>, k: nat): (r: seq<T>)
    requires k > 0
    ensures |r| == |s|
    decreases |s|
  {
    if s == [] then []
    else
      var i, j := Min(k, |s|), Min(2 * k, |s|);
      Merge(leq, s[..i], s[i..j]) + Pass(leq, s[j..], k)
  }

  /** The outer loop from run length `k` on: it ends after a pass of at most one merge. */
  function SortFrom<T>(leq: Leq<T>, s: seq<T>, k: nat): (r: seq<T>)
    requires k > 0
    ensures |r| == |s|
    decreases |s| - k
  {
    if |s| <= 2 * k then Pass(leq, s, k) else SortFrom(leq, Pass(leq, s, k), 2 * k)
  }

  function Sort<T>(leq: Leq<T>, s: seq<T>): (r: seq<T>)
    ensures |r| == |s|
  {
    SortFrom(leq, s, 1)
  }

  lemma TakeLeftStep<T>(leq: Leq<T>, a: seq<T>, b: seq<T>)
    requires a != [] && (b == [] || leq(a[0], b[0]))
    ensures Merge(leq, a, b) == [a[0]] + Merge(leq, a[1..], b)
  {
  }

  lemma TakeRightStep<T>(leq: Leq<T>, a: seq<T>, b: seq<T>)
    requires b != [] && (a == [] || !leq(a[0], b[0]))
    ensures Merge(leq, a, b) == [b[0]] + Merge(leq, a, b[1..])
  {
  }

  // ---------------------------------------------------------------------------
  // What sorting means
  // ---------------------------------------------------------------------------

  /** The comparator is a total preorder on the given elements. */
  ghost predicate TotalOn<T>(leq: Leq<T>, s: seq<T>)
  {
    && (forall x, y :: x in s && y in s ==> leq(x, y) || leq(y, x))
    && (forall x, y, z :: x in s && y in s && z in s && leq(x, y) && leq(y, z) ==> leq(x, z))
  }

  ghost predicate Sorted<T>(leq: Leq<T>, s: seq<T>)
  {
    forall i, j :: 0 <= i < j < |s| ==> leq(s[i], s[j])
  }

  /** The elements that tie with `x`, in their order. */
  function Ties<T>(leq: Leq<T>, x: T, s: seq<T>): (r: seq<T>)
  {
    if s == [] then []
    else (if leq(x, s[0]) && leq(s[0], x) then [s[0]] else []) + Ties(leq, x, s[1..])
  }

  ghost predicate RunsSorted<T>(leq: Leq<T>, s: seq<T>, k: nat)
    requires k > 0
    decreases |s|
  {
    if |s| <= k then Sorted(leq, s) else Sorted(leq, s[..k]) && RunsSorted(leq, s[k..], k)
  }

  // ---------------------------------------------------------------------------
  // Permutation
  // ---------------------------------------------------------------------------

  lemma {:induction false} MergeKeepsElements<T>(leq: Leq<T>, a: seq<T>, b: seq<T>)
    ensures multiset(Merge(leq, a, b)) == multiset(a) + multiset(b)
    decreases |a| + |b|
  {
    hide Merge;
    if a == [] || b == [] {
      MergeEmpty(leq, a, b);
      assert multiset(a + b) == multiset(a) + multiset(b);
    } else if leq(a[0], b[0]) {
      TakeLeftStep(leq, a, b);
      MergeKeepsElements(leq, a[1..], b);
      HeadCounts(a);
      ConsCounts(a[0], Merge(leq, a[1..], b));
    } else {
      TakeRightStep(leq, a, b);
      MergeKeepsElements(leq, a, b[1..]);
      HeadCounts(b);
      ConsCounts(b[0], Merge(leq, a, b[1..]));
    }
  }

  lemma ConsCounts<T>(x: T, s: seq<T>)
    ensures multiset([x] + s) == multiset{x} + multiset(s)
  {
  }

  lemma HeadCounts<T>(s: seq<T>)
    requires s != []
    ensures multiset(s) == multiset{s[0]} + multiset(s[1..])
  {
    assert s == [s[0]] + s[1..];
  }

  lemma {:induction false} PassKeepsElements<T>(leq: Leq<T>, s: seq<T>, k: nat)
    requires k > 0
    ensures multiset(Pass(leq, s, k)) == multiset(s)
    decreases |s|
  {
    hide Merge;
    if s != [] {
      var i, j := Min(k, |s|), Min(2 * k, |s|);
      MergeKeepsElements(leq, s[..i], s[i..j]);
      PassKeepsElements(leq, s[j..], k);
      assert s == s[..i] + s[i..j] + s[j..];
    }
  }

  lemma {:induction false} SortKeepsElements<T>(leq: Leq<T>, s: seq<T>, k: nat)
    requires k > 0
    ensures multiset(SortFrom(leq, s, k)) == multiset(s)
    decreases |s| - k
  {
    hide Pass;
    PassKeepsElements(leq, s, k);
    if |s| > 2 * k {
      SortKeepsElements(leq, Pass(leq, s, k), 2 * k);
    }
  }

  lemma SameElements<T>(s: seq<T>, t: seq<T>)
    requires multiset(s) == multiset(t)
    ensures forall x :: x in s <==> x in t
  {
    forall x
      ensures x in s <==> x in t
    {
      assert x in s <==> x in multiset(s);
      assert x in t <==> x in multiset(t);
    }
  }

  // ---------------------------------------------------------------------------
  // Order
  // ---------------------------------------------------------------------------

  /** Reordering keeps different keys different. */
  lemma PermutedDistinct<T, K>(key: T -> K, s: seq<T>, t: seq<T>)
    requires multiset(s) == multiset(t) && forall i, j :: 0 <= i < j < |s| ==> key(s[i]) != key(s[j])
    ensures forall i, j :: 0 <= i < j < |t| ==> key(t[i]) != key(t[j])
  {
    SameElements(s, t);
    forall i, j | 0 <= i < j < |t|
      ensures key(t[i]) != key(t[j])
    {
      var x, y := t[i], t[j];
      if key(x) == key(y) {
        SameKeySame(key, s, x, y);
        Twice(t, i, j);
        OnceOnly(key, s, x);
      }
    }
  }

  lemma SameKeySame<T, K>(key: T -> K, s: seq<T>, x: T, y: T)
    requires forall i, j :: 0 <= i < j < |s| ==> key(s[i]) != key(s[j])
    requires x in s && y in s && key(x) == key(y)
    ensures x == y
  {
  }

  lemma Twice<T>(t: seq<T>, i: nat, j: nat)
    requires i < j < |t| && t[i] == t[j]
    ensures multiset(t)[t[i]] >= 2
  {
    assert t == t[..j] + t[j..];
    assert t[..j][i] == t[i] && t[j..][0] == t[i];
  }

  lemma {:induction false} OnceOnly<T, K>(key: T -> K, s: seq<T>, x: T)
    requires forall i, j :: 0 <= i < j < |s| ==> key(s[i]) != key(s[j])
    ensures multiset(s)[x] <= 1
    decreases |s|
  {
    if s != [] {
      OnceOnly(key, s[1..], x);
      assert s == [s[0]] + s[1..];
      assert s[0] !in s[1..];
    }
  }

  /** All of `s` comes from the list `u` being sorted. */
  ghost predicate Within<T>(s: seq<T>, u: seq<T>)
  {
    forall x :: x in s ==> x in u
  }

  lemma SortedCons<T>(leq: Leq<T>, x: T, s: seq<T>)
    requires Sorted(leq, s) && forall y :: y in s ==> leq(x, y)
    ensures Sorted(leq, [x] + s)
  {
  }

  lemma SortedTail<T>(leq: Leq<T>, s: seq<T>)
    requires s != [] && Sorted(leq, s)
    ensures Sorted(leq, s[1..]) && forall y :: y in s[1..] ==> leq(s[0], y)
  {
  }

  lemma {:induction false} MergeSorts<T>(leq: Leq<T>, a: seq<T>, b: seq<T>, u: seq<T>)
    requires TotalOn(leq, u) && Within(a, u) && Within(b, u)
    requires Sorted(leq, a) && Sorted(leq, b)
    ensures Sorted(leq, Merge(leq, a, b))
    decreases |a| + |b|
  {
    hide Sorted;
    if a != [] && b != [] {
      SortedTail(leq, a);
      SortedTail(leq, b);
      if leq(a[0], b[0]) {
        MergeSorts(leq, a[1..], b, u);
        BelowHead(leq, a[0], b, u);
        forall y | y in Merge(leq, a[1..], b)
          ensures leq(a[0], y)
        {
          MergeMember(leq, a[1..], b, y);
        }
        SortedCons(leq, a[0], Merge(leq, a[1..], b));
      } else {
        MergeSorts(leq, a, b[1..], u);
        assert leq(b[0], a[0]);
        BelowHead(leq, b[0], a, u);
        forall y | y in Merge(leq, a, b[1..])
          ensures leq(b[0], y)
        {
          MergeMember(leq, a, b[1..], y);
        }
        SortedCons(leq, b[0], Merge(leq, a, b[1..]));
      }
    }
  }

  lemma MergeMember<T>(leq: Leq<T>, a: seq<T>, b: seq<T>, y: T)
    ensures y in Merge(leq, a, b) <==> y in a || y in b
  {
    hide Merge;
    MergeKeepsElements(leq, a, b);
    assert y in Merge(leq, a, b) <==> y in multiset(Merge(leq, a, b));
    assert y in a <==> y in multiset(a);
    assert y in b <==> y in multiset(b);
  }

  /** What lies below the head of a sorted run lies below the run. */
  lemma BelowHead<T>(leq: Leq<T>, x: T, b: seq<T>, u: seq<T>)
    requires TotalOn(leq, u) && x in u && Within(b, u)
    requires b != [] && Sorted(leq, b) && leq(x, b[0])
    ensures forall y :: y in b ==> leq(x, y)
  {
    assert b[0] in u && leq(b[0], b[0]);
    forall y | y in b
      ensures leq(x, y)
    {
      assert y in u && leq(b[0], y);
    }
  }

  lemma {:induction false} PassDoublesRuns<T>(leq: Leq<T>, s: seq<T>, k: nat, u: seq<T>)
    requires k > 0 && TotalOn(leq, u) && Within(s, u) && RunsSorted(leq, s, k)
    ensures RunsSorted(leq, Pass(leq, s, k), 2 * k)
    decreases |s|
  {
    hide Merge, Sorted, TotalOn;
    if s == [] {
      SortedEmpty(leq, Pass(leq, s, k));
    } else {
      var i, j := Min(k, |s|), Min(2 * k, |s|);
      FirstRuns(leq, s, k);
      MergeSorts(leq, s[..i], s[i..j], u);
      var m := Merge(leq, s[..i], s[i..j]);
      if |s| <= 2 * k {
        assert s[j..] == [] && Pass(leq, s, k) == m;
      } else {
        PassDoublesRuns(leq, s[j..], k, u);
        assert Pass(leq, s, k)[..2 * k] == m;
        assert Pass(leq, s, k)[2 * k..] == Pass(leq, s[j..], k);
      }
    }
  }

  lemma SortedEmpty<T>(leq: Leq<T>, s: seq<T>)
    requires s == []
    ensures Sorted(leq, s)
  {
  }

  lemma FirstRuns<T>(leq: Leq<T>, s: seq<T>, k: nat)
    requires k > 0 && RunsSorted(leq, s, k)
    ensures var i, j := Min(k, |s|), Min(2 * k, |s|);
            Sorted(leq, s[..i]) && Sorted(leq, s[i..j]) && RunsSorted(leq, s[j..], k)
  {
    hide Sorted;
    if |s| <= k {
      assert s[..|s|] == s;
      SortedEmpty(leq, s[|s|..]);
    } else {
      var t := s[k..];
      if |t| <= k {
        assert t[..|t|] == t && s[k..|s|] == t;
        SortedEmpty(leq, s[|s|..]);
      } else {
        assert t[..k] == s[k..2 * k] && t[k..] == s[2 * k..];
      }
    }
  }

  lemma {:induction false} SingleRuns<T>(leq: Leq<T>, s: seq<T>)
    ensures RunsSorted(leq, s, 1)
    decreases |s|
  {
    if |s| > 1 {
      SingleRuns(leq, s[1..]);
    }
  }

  // ---------------------------------------------------------------------------
  // Stability
  // ---------------------------------------------------------------------------

  lemma {:induction false} NoTies<T>(leq: Leq<T>, x: T, s: seq<T>)
    requires forall y :: y in s ==> !(leq(x, y) && leq(y, x))
    ensures Ties(leq, x, s) == []
    decreases |s|
  {
    if s != [] {
      NoTies(leq, x, s[1..]);
    }
  }

  lemma {:induction false} TiesConcat<T>(leq: Leq<T>, x: T, a: seq<T>, b: seq<T>)
    ensures Ties(leq, x, a + b) == Ties(leq, x, a) + Ties(leq, x, b)
    decreases |a|
  {
    if a == [] {
      assert a + b == b;
    } else {
      TiesConcat(leq, x, a[1..], b);
      assert (a + b)[1..] == a[1..] + b;
      Assoc(if leq(x, a[0]) && leq(a[0], x) then [a[0]] else [], Ties(leq, x, a[1..]), Ties(leq, x, b));
    }
  }

  lemma {:induction false} MergeKeepsTies<T>(leq: Leq<T>, x: T, a: seq<T>, b: seq<T>, u: seq<T>)
    requires TotalOn(leq, u) && x in u && Within(a, u) && Within(b, u) && Sorted(leq, a)
    ensures Ties(leq, x, Merge(leq, a, b)) == Ties(leq, x, a) + Ties(leq, x, b)
    decreases |a| + |b|
  {
    hide Sorted, TotalOn, Merge, Ties, Within;
    if a == [] || b == [] {
      MergeEmpty(leq, a, b);
      TiesConcat(leq, x, a, b);
    } else {
      SortedTail(leq, a);
      WithinTail(a, u);
      WithinTail(b, u);
      if leq(a[0], b[0]) {
        TakeLeftStep(leq, a, b);
        MergeKeepsTies(leq, x, a[1..], b, u);
        TiesFirst(leq, x, a);
        TiesConcat(leq, x, [a[0]], Merge(leq, a[1..], b));
        Assoc(Ties(leq, x, [a[0]]), Ties(leq, x, a[1..]), Ties(leq, x, b));
      } else {
        TakeRightStep(leq, a, b);
        MergeKeepsTies(leq, x, a, b[1..], u);
        TiesFirst(leq, x, b);
        TiesConcat(leq, x, [b[0]], Merge(leq, a, b[1..]));
        if leq(x, b[0]) && leq(b[0], x) {
          RightHeadTiesAlone(leq, x, a, b[0], u);
        } else {
          NoTies(leq, x, [b[0]]);
        }
      }
    }
  }

  lemma MergeEmpty<T>(leq: Leq<T>, a: seq<T>, b: seq<T>)
    requires a == [] || b == []
    ensures Merge(leq, a, b) == a + b
  {
  }

  lemma TiesFirst<T>(leq: Leq<T>, x: T, a: seq<T>)
    requires a != []
    ensures Ties(leq, x, a) == Ties(leq, x, [a[0]]) + Ties(leq, x, a[1..])
  {
    hide Ties;
    TiesConcat(leq, x, [a[0]], a[1..]);
    assert a == [a[0]] + a[1..];
  }

  lemma WithinTail<T>(a: seq<T>, u: seq<T>)
    requires Within(a, u) && a != []
    ensures a[0] in u && Within(a[1..], u)
  {
  }

  /** When the head of the right run is strictly below the left run, nothing on the left ties with it. */
  lemma RightHeadTiesAlone<T>(leq: Leq<T>, x: T, a: seq<T>, h: T, u: seq<T>)
    requires TotalOn(leq, u) && x in u && h in u && Within(a, u) && Sorted(leq, a)
    requires a != [] && !leq(a[0], h) && leq(x, h)
    ensures Ties(leq, x, a) == []
  {
    forall y | y in a
      ensures !(leq(x, y) && leq(y, x))
    {
      var g := a[0];
      assert g in u && y in u && leq(g, g);
      assert leq(g, y);
      assert leq(y, x) ==> leq(g, x);
      assert leq(g, x) ==> leq(g, h);
    }
    NoTies(leq, x, a);
  }

  lemma {:induction false} PassKeepsTies<T>(leq: Leq<T>, x: T, s: seq<T>, k: nat, u: seq<T>)
    requires k > 0 && TotalOn(leq, u) && x in u && Within(s, u) && RunsSorted(leq, s, k)
    ensures Ties(leq, x, Pass(leq, s, k)) == Ties(leq, x, s)
    decreases |s|
  {
    hide Merge, Sorted, TotalOn, Ties, RunsSorted;
    if s != [] {
      var i, j := Min(k, |s|), Min(2 * k, |s|);
      FirstRuns(leq, s, k);
      MergeKeepsTies(leq, x, s[..i], s[i..j], u);
      PassKeepsTies(leq, x, s[j..], k, u);
      TiesConcat(leq, x, Merge(leq, s[..i], s[i..j]), Pass(leq, s[j..], k));
      TiesConcat(leq, x, s[..i], s[i..j]);
      TiesConcat(leq, x, s[..i] + s[i..j], s[j..]);
      assert s == s[..i] + s[i..j] + s[j..];
    }
  }

  lemma {:induction false} SortFromSorts<T>(leq: Leq<T>, s: seq<T>, k: nat, u: seq<T>)
    requires k > 0 && TotalOn(leq, u) && Within(s, u) && RunsSorted(leq, s, k)
    ensures Sorted(leq, SortFrom(leq, s, k))
    ensures forall x :: x in u ==> Ties(leq, x, SortFrom(leq, s, k)) == Ties(leq, x, s)
    decreases |s| - k
  {
    hide Pass, TotalOn, Sorted, Ties;
    var t := Pass(leq, s, k);
    PassDoublesRuns(leq, s, k, u);
    forall x | x in u
      ensures Ties(leq, x, t) == Ties(leq, x, s)
    {
      PassKeepsTies(leq, x, s, k, u);
    }
    if |s| > 2 * k {
      PassKeepsElements(leq, s, k);
      SameElements(t, s);
      assert Within(t, u);
      SortFromSorts(leq, t, 2 * k, u);
    }
  }

  /** The sort is a stable sort for every total preorder. */
  lemma SortIsStableSort<T>(leq: Leq<T>, s: seq<T>)
    requires TotalOn(leq, s)
    ensures multiset(Sort(leq, s)) == multiset(s)
    ensures Sorted(leq, Sort(leq, s))
    ensures forall x :: x in s ==> Ties(leq, x, Sort(leq, s)) == Ties(leq, x, s)
  {
    hide SortFrom, TotalOn;
    SingleRuns(leq, s);
    SortKeepsElements(leq, s, 1);
    SortFromSorts(leq, s, 1, s);
  }

  lemma SortKeepsMembers<T>(leq: Leq<T>, s: seq<T>)
    ensures multiset(Sort(leq, s)) == multiset(s) && forall x :: x in Sort(leq, s) <==> x in s
  {
    SortKeepsElements(leq, s, 1);
    hide SortFrom;
    SameElements(Sort(leq, s), s);
  }

  /** The elements that tie are in any order that the sequence is in. */
  lemma {:induction false} TiesKeepOrder<T>(leq: Leq<T>, x: T, s: seq<T>, rel: Leq<T>)
    requires Sorted(rel, s)
    ensures Sorted(rel, Ties(leq, x, s)) && forall y :: y in Ties(leq, x, s) ==> y in s
    decreases |s|
  {
    hide Sorted;
    if s == [] {
      SortedEmpty(rel, Ties(leq, x, s));
    } else {
      SortedTail(rel, s);
      var tail := Ties(leq, x, s[1..]);
      TiesKeepOrder(leq, x, s[1..], rel);
      SortedCons(rel, s[0], tail);
      assert [] + tail == tail;
    }
  }

  /** Two elements that tie are among the ties in the same order. */
  lemma {:induction false} TiesInOrder<T>(leq: Leq<T>, x: T, s: seq<T>, i: nat, j: nat) returns (a: nat, b: nat)
    requires i < j < |s| && leq(x, s[i]) && leq(s[i], x) && leq(x, s[j]) && leq(s[j], x)
    ensures var ties := Ties(leq, x, s); a < b < |ties| && ties[a] == s[i] && ties[b] == s[j]
    decreases |s|
  {
    var skip := if leq(x, s[0]) && leq(s[0], x) then 1 else 0;
    if i == 0 {
      b := TieAt(leq, x, s[1..], j - 1);
      a, b := 0, b + 1;
    } else {
      a, b := TiesInOrder(leq, x, s[1..], i - 1, j - 1);
      a, b := a + skip, b + skip;
    }
  }

  lemma {:induction false} TieAt<T>(leq: Leq<T>, x: T, s: seq<T>, i: nat) returns (a: nat)
    requires i < |s| && leq(x, s[i]) && leq(s[i], x)
    ensures a < |Ties(leq, x, s)| && Ties(leq, x, s)[a] == s[i]
    decreases |s|
  {
    if i == 0 {
      a := 0;
    } else {
      a := TieAt(leq, x, s[1..], i - 1);
      a := a + if leq(x, s[0]) && leq(s[0], x) then 1 else 0;
    }
  }

  /** Sorting a sequence that is in some order leaves elements that tie in that order. */
  lemma SortKeepsOrder<T>(leq: Leq<T>, s: seq<T>, rel: Leq<T>, a: nat, b: nat)
    requires TotalOn(leq, s) && Sorted(rel, s)
    requires a < b < |s| && leq(Sort(leq, s)[b], Sort(leq, s)[a])
    ensures rel(Sort(leq, s)[a], Sort(leq, s)[b])
  {
    hide TotalOn, Ties, Sort;
    SortIsStableSort(leq, s);
    var t := Sort(leq, s);
    var x := t[a];
    assert x in multiset(t);
    assert x in s;
    TiesWithItself(leq, s, x);
    assert leq(x, t[b]);
    var i, j := TiesInOrder(leq, x, t, a, b);
    TiesKeepOrder(leq, x, s, rel);
  }

  lemma TiesWithItself<T>(leq: Leq<T>, s: seq<T>, x: T)
    requires TotalOn(leq, s) && x in s
    ensures leq(x, x)
  {
  }

  // ---------------------------------------------------------------------------
  // The steps of a list sort, on the sequences of items
  // ---------------------------------------------------------------------------

  /** The inner loop is over: nothing of either run is left. */
  lemma MergeEnds<T>(leq: Leq<T>, out: seq<T>, rs: seq<T>, n: nat)
    requires n == 0 || rs == []
    ensures Min(n, |rs|) == 0 && rs[Min(n, |rs|)..] == rs
    ensures out + Merge(leq, [], rs[..Min(n, |rs|)]) == out
  {
  }

  lemma SliceTail<T>(s: seq<T>, n: nat)
    requires s != [] && n > 0
    ensures s[1..][..Min(n - 1, |s[1..]|)] == s[..Min(n, |s|)][1..]
    ensures s[1..][Min(n - 1, |s[1..]|)..] == s[Min(n, |s|)..]
  {
  }

  /** The runs that one round of a pass merges, and what is left for the next round. */
  lemma PassStep<T>(leq: Leq<T>, rs: seq<T>, k: nat)
    requires rs != [] && k > 0
    ensures var i := Min(k, |rs|);
            var n := Min(k, |rs[i..]|);
            && Pass(leq, rs, k) == Merge(leq, rs[..i], rs[i..][..n]) + Pass(leq, rs[i..][n..], k)
            && i + n == Min(2 * k, |rs|)
  {
    hide Merge;
    TwoRuns(rs, k);
  }

  lemma TwoRuns<T>(rs: seq<T>, k: nat)
    ensures var i, j := Min(k, |rs|), Min(2 * k, |rs|);
            var n := Min(k, |rs[i..]|);
            rs[i..][..n] == rs[i..j] && rs[i..][n..] == rs[j..] && i + n == j
  {
  }

  lemma RoundMembers<T>(leq: Leq<T>, out: seq<T>, rs: seq<T>, i: nat, n: nat)
    requires i <= |rs| && n <= |rs[i..]|
    ensures forall x :: x in out + Merge(leq, rs[..i], rs[i..][..n]) + rs[i..][n..] ==> x in out + rs
  {
    hide Merge;
    forall x | x in Merge(leq, rs[..i], rs[i..][..n])
      ensures x in rs
    {
      MergeMember(leq, rs[..i], rs[i..][..n], x);
    }
  }

  /** One round of a pass on the rest `rs` of the list, after the output `out`. */
  lemma RoundStep<T>(leq: Leq<T>, out: seq<T>, rs: seq<T>, i: nat, k: nat)
    requires rs != [] && k > 0 && i == Min(k, |rs|)
    ensures out + rs[..i] + rs[i..] == out + rs
    ensures var n := Min(k, |rs[i..]|);
            var rest := rs[i..][n..];
            var merged := out + Merge(leq, rs[..i], rs[i..][..n]);
            && merged + Pass(leq, rest, k) == out + Pass(leq, rs, k)
            && |merged| == |out| + Min(2 * k, |rs|) && |rest| < |rs|
            && forall x :: x in merged + rest ==> x in out + rs
  {
    hide Pass, Merge;
    PassStep(leq, rs, k);
    RoundMembers(leq, out, rs, i, Min(k, |rs[i..]|));
    Assoc(out, Merge(leq, rs[..i], rs[i..][..Min(k, |rs[i..]|)]), Pass(leq, rs[i..][Min(k, |rs[i..]|)..], k));
    SplitBack(out, rs, i);
    hide *;
  }

  lemma SplitBack<T>(out: seq<T>, rs: seq<T>, i: nat)
    requires i <= |rs|
    ensures out + rs[..i] + rs[i..] == out + rs
  {
  }
}
