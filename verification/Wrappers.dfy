/** An option type, and facts about sets and sequences that several modules use. */
module Wrappers {
  datatype Option<+T> = None | Some(value: T)

  lemma HasElement<T>(s: set<T>) returns (x: T)
    requires s != {}
    ensures x in s
  {
    x :| x in s;
  }

  lemma Assoc<T>(a: seq<T>, b: seq<T>, c: seq<T>)
    ensures (a + b) + c == a + (b + c)
  {
  }

  lemma SameLength<T>(a: seq<T>, b: seq<T>)
    requires multiset(a) == multiset(b)
    ensures |a| == |b|
  {
    assert |multiset(a)| == |a| && |multiset(b)| == |b|;
  }

  /** The first element of a sequence is somewhere in every reordering of it, and the rests are reorderings, too. */
  lemma FindFirst<T>(s: seq<T>, t: seq<T>) returns (j: nat)
    requires s != [] && multiset(s) == multiset(t)
    ensures j < |t| && t[j] == s[0]
    ensures multiset(s[1..]) == multiset(t[..j] + t[j + 1..])
  {
    assert s[0] in multiset(t);
    j :| 0 <= j < |t| && t[j] == s[0];
    assert s == [s[0]] + s[1..];
    WithoutOne(t, j);
  }

  lemma WithoutOne<T>(s: seq<T>, j: nat)
    requires j < |s|
    ensures multiset(s[..j] + s[j + 1..]) == multiset(s) - multiset{s[j]}
  {
    assert s == s[..j] + ([s[j]] + s[j + 1..]);
  }

  /** No element twice. */
  ghost predicate Distinct<T>(s: seq<T>)
  {
    forall i, j :: 0 <= i < j < |s| ==> s[i] != s[j]
  }

  lemma DistinctSnoc<T>(s: seq<T>, x: T)
    requires Distinct(s) && x !in s
    ensures Distinct(s + [x])
  {
    var t := s + [x];
    forall i, j | 0 <= i < j < |t|
      ensures t[i] != t[j]
    {
      assert t[i] == s[i];
    }
  }

  ghost function Members<T>(s: seq<T>): (m: set<T>)
  {
    set x | x in s
  }

  /** Three sequences without repetitions and without common elements. */
  ghost predicate Disjoint3<T>(out: seq<T>, p: seq<T>, r: seq<T>)
  {
    && Distinct(out) && Distinct(p) && Distinct(r)
    && (forall x :: x in out ==> x !in p && x !in r)
    && (forall x :: x in p ==> x !in r)
  }
}
