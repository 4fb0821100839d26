/**
 search_phrase (search.c:138-219): counting the places where all tokens of a query stand in
 their relative order, by a leapfrog over one cursor per query occurrence.
 */
module PhraseSearch {
  import opened GapCode

  /** phrase_search_cursor without its moving part. */
  datatype PhraseCursor = PhraseCursor(base: int, positions: seq<int>) {
    /** The shift that position `k` stands for. */
    function Shift(k: nat): int
      requires k < |positions|
    {
      positions[k] - base
    }

    predicate Sorted()
    {
      Ascending(-1, positions)
    }

    /** Some position stands for shift `r`. */
    predicate Has(r: int)
    {
      r + base in positions
    }
  }

  /** At shift `r` every occurrence of the query finds its token. */
  predicate Matches(cs: seq<PhraseCursor>, r: int)
  {
    forall c :: c in cs ==> c.Has(r)
  }

  /** All shifts at which the query matches. */
  function MatchingShifts(cs: seq<PhraseCursor>): (s: set<int>)
    requires cs != []
    ensures forall r :: r in s <==> Matches(cs, r)
  {
    var s := set p | p in cs[0].positions && Matches(cs, p - cs[0].base) :: p - cs[0].base;
    assert forall r :: Matches(cs, r) ==> r in s by {
      forall r | Matches(cs, r)
        ensures r in s
      {
        assert cs[0].Has(r);
        assert r == (r + cs[0].base) - cs[0].base;
      }
    }
    s
  }

  /** Matches among the positions of the first cursor from `k` on. */
  function CountFrom(cs: seq<PhraseCursor>, k: nat): (n: nat)
    requires cs != [] && k <= |cs[0].positions|
    decreases |cs[0].positions| - k
  {
    if k == |cs[0].positions| then 0
    else (if Matches(cs, cs[0].Shift(k)) then 1 else 0) + CountFrom(cs, k + 1)
  }

  ghost function ShiftsFrom(cs: seq<PhraseCursor>, k: nat): (s: set<int>)
    requires cs != [] && k <= |cs[0].positions|
    decreases |cs[0].positions| - k
  {
    if k == |cs[0].positions| then {}
    else (if Matches(cs, cs[0].Shift(k)) then {cs[0].Shift(k)} else {}) + ShiftsFrom(cs, k + 1)
  }

  lemma {:induction false} ShiftsFromIs(cs: seq<PhraseCursor>, k: nat)
    requires cs != [] && k <= |cs[0].positions| && cs[0].Sorted()
    ensures forall r :: r in ShiftsFrom(cs, k) <==>
              Matches(cs, r) && exists j :: k <= j < |cs[0].positions| && cs[0].Shift(j) == r
    ensures |ShiftsFrom(cs, k)| == CountFrom(cs, k)
    decreases |cs[0].positions| - k
  {
    hide Matches;
    AscendingOrder(-1, cs[0].positions);
    if k < |cs[0].positions| {
      ShiftsFromIs(cs, k + 1);
    }
  }

  /** The running count of the loop counts shifts, each once. */
  lemma CountIsCardinality(cs: seq<PhraseCursor>)
    requires cs != [] && cs[0].Sorted()
    ensures CountFrom(cs, 0) == |MatchingShifts(cs)|
  {
    hide CountFrom, ShiftsFrom;
    ShiftsFromIs(cs, 0);
    forall r | Matches(cs, r)
      ensures r in ShiftsFrom(cs, 0)
    {
      assert cs[0].Has(r);
      var j :| 0 <= j < |cs[0].positions| && cs[0].positions[j] == r + cs[0].base;
      assert cs[0].Shift(j) == r;
    }
    forall r
      ensures r in ShiftsFrom(cs, 0) <==> r in MatchingShifts(cs)
    {
    }
    assert ShiftsFrom(cs, 0) == MatchingShifts(cs);
  }

  lemma {:induction false} CountFindsMatch(cs: seq<PhraseCursor>, k: nat) returns (r: int)
    requires cs != [] && k <= |cs[0].positions| && CountFrom(cs, k) > 0
    ensures Matches(cs, r)
    decreases |cs[0].positions| - k
  {
    hide Matches;
    if Matches(cs, cs[0].Shift(k)) {
      r := cs[0].Shift(k);
    } else {
      r := CountFindsMatch(cs, k + 1);
    }
  }

  /** If no shift in `lo .. hi` matches, positions standing for such shifts can be passed over. */
  lemma {:induction false} SkipNoMatches(cs: seq<PhraseCursor>, k: nat, j: nat)
    requires cs != [] && k <= j <= |cs[0].positions|
    requires forall i :: k <= i < j ==> !Matches(cs, cs[0].Shift(i))
    ensures CountFrom(cs, k) == CountFrom(cs, j)
    decreases j - k
  {
    hide Matches;
    if k < j {
      SkipNoMatches(cs, k + 1, j);
    }
  }

  /** A cursor whose positions before `n` lie below `r`, and from `n` on above it, lacks `r`. */
  lemma PassedOver(c: PhraseCursor, n: nat, r: int)
    requires c.Sorted() && n <= |c.positions|
    requires forall k :: 0 <= k < n ==> c.Shift(k) < r
    requires n < |c.positions| ==> r < c.Shift(n)
    ensures !c.Has(r)
  {
    AscendingOrder(-1, c.positions);
    forall j | 0 <= j < |c.positions|
      ensures c.positions[j] != r + c.base
    {
      if j < n {
        assert c.Shift(j) < r;
      } else {
        assert c.positions[n] <= c.positions[j];
      }
    }
  }

  // ---------------------------------------------------------------------------
  // The loops
  // ---------------------------------------------------------------------------

  datatype Seek = Exhausted | Blocked(next: int) | Aligned

  /** Positions before the cursor all stand for shifts below `r`. */
  predicate Below(c: PhraseCursor, n: nat, r: int)
  {
    n <= |c.positions| && forall k :: 0 <= k < n ==> c.Shift(k) < r
  }

  predicate SitsOn(c: PhraseCursor, n: nat, r: int)
  {
    n < |c.positions| && c.Shift(n) == r
  }

  /** `for (; cur->current && *cur->current - cur->base < rel; cur->current = utarray_next(...))` */
  method Advance(c: PhraseCursor, from: nat, rel: int) returns (n: nat)
    requires Below(c, from, rel)
    ensures Below(c, n, rel) && n >= from
    ensures n < |c.positions| ==> c.Shift(n) >= rel
  {
    n := from;
    while n < |c.positions| && c.positions[n] - c.base < rel
      invariant Below(c, n, rel) && n >= from
    {
      n := n + 1;
    }
  }

  /** The `for` loop of search_phrase over all cursors but the first. */
  method SeekOthers(cs: seq<PhraseCursor>, current: array<nat>, rel: int) returns (r: Seek)
    requires cs != [] && current.Length == |cs|
    requires forall c :: c in cs ==> c.Sorted()
    requires forall i :: 1 <= i < |cs| ==> Below(cs[i], current[i], rel)
    requires SitsOn(cs[0], current[0], rel)
    modifies current
    ensures current[0] == old(current[0])
    ensures forall i :: 1 <= i < |cs| ==> Below(cs[i], current[i], rel)
    ensures r.Aligned? ==> Matches(cs, rel)
    ensures r.Blocked? ==> r.next > rel && forall x :: rel <= x < r.next ==> !Matches(cs, x)
    ensures r.Exhausted? ==> forall x :: rel <= x ==> !Matches(cs, x)
  {
    for i := 1 to |cs|
      invariant current[0] == old(current[0])
      invariant forall j :: 1 <= j < |cs| ==> Below(cs[j], current[j], rel)
      invariant forall j :: 0 <= j < i ==> SitsOn(cs[j], current[j], rel)
    {
      current[i] := Advance(cs[i], current[i], rel);
      if current[i] == |cs[i].positions| {
        NoneFrom(cs, i, current[i], rel);
        return Exhausted;
      }
      if cs[i].positions[current[i]] - cs[i].base != rel {
        NoneUpTo(cs, i, current[i], rel);
        return Blocked(cs[i].positions[current[i]] - cs[i].base);
      }
    }
    AllSitOn(cs, current[..], rel);
    return Aligned;
  }

  lemma NoneFrom(cs: seq<PhraseCursor>, i: nat, n: nat, rel: int)
    requires i < |cs| && cs[i].Sorted() && Below(cs[i], n, rel) && n == |cs[i].positions|
    ensures forall x :: rel <= x ==> !Matches(cs, x)
  {
    forall x | rel <= x
      ensures !Matches(cs, x)
    {
      PassedOver(cs[i], n, x);
    }
  }

  lemma NoneUpTo(cs: seq<PhraseCursor>, i: nat, n: nat, rel: int)
    requires i < |cs| && cs[i].Sorted() && Below(cs[i], n, rel) && n < |cs[i].positions|
    ensures forall x :: rel <= x < cs[i].Shift(n) ==> !Matches(cs, x)
  {
    forall x | rel <= x < cs[i].Shift(n)
      ensures !Matches(cs, x)
    {
      PassedOver(cs[i], n, x);
    }
  }

  lemma AllSitOn(cs: seq<PhraseCursor>, at: seq<nat>, rel: int)
    requires |at| == |cs| && forall j :: 0 <= j < |cs| ==> SitsOn(cs[j], at[j], rel)
    ensures Matches(cs, rel)
  {
  }

  /** The `while` loop of search_phrase. */
  method CountPhrases(cs: seq<PhraseCursor>) returns (count: nat)
    requires cs != [] && forall c :: c in cs ==> c.Sorted()
    ensures count == |MatchingShifts(cs)|
  {
    hide Matches, PhraseCursor.Sorted;
    var current := new nat[|cs|](_ => 0);
    count := 0;
    CountIsCardinality(cs);
    while current[0] < |cs[0].positions|
      invariant current[0] <= |cs[0].positions|
      invariant current[0] < |cs[0].positions| ==>
                  forall i :: 1 <= i < |cs| ==> Below(cs[i], current[i], cs[0].Shift(current[0]))
      invariant count + CountFrom(cs, current[0]) == CountFrom(cs, 0)
      decreases |cs[0].positions| - current[0]
    {
      var k := current[0];
      var rel := cs[0].positions[k] - cs[0].base;
      ShiftsAscend(cs[0]);
      var r := SeekOthers(cs, current, rel);
      match r
      case Exhausted =>
        SkipNoMatches(cs, k, |cs[0].positions|);
        return;
      case Blocked(next) =>
        current[0] := AdvanceFirst(cs, k, next);
      case Aligned =>
        count := count + 1;
        current[0] := current[0] + 1;
    }
  }

  lemma ShiftsAscend(c: PhraseCursor)
    requires c.Sorted()
    ensures forall i, j :: 0 <= i < j < |c.positions| ==> c.Shift(i) < c.Shift(j)
  {
    AscendingOrder(-1, c.positions);
  }

  /** `while (cursors[0].current && *cursors[0].current - cursors[0].base < next_rel_position)` */
  method AdvanceFirst(cs: seq<PhraseCursor>, k: nat, next: int) returns (n: nat)
    requires cs != [] && cs[0].Sorted() && k < |cs[0].positions| && cs[0].Shift(k) < next
    requires forall x :: cs[0].Shift(k) <= x < next ==> !Matches(cs, x)
    ensures k < n <= |cs[0].positions|
    ensures n < |cs[0].positions| ==> cs[0].Shift(n) >= next
    ensures CountFrom(cs, n) == CountFrom(cs, k)
  {
    hide Matches, CountFrom;
    ShiftsAscend(cs[0]);
    n := k;
    while n < |cs[0].positions| && cs[0].positions[n] - cs[0].base < next
      invariant k <= n <= |cs[0].positions|
      invariant n == k ==> cs[0].Shift(n) < next
      invariant forall i :: k <= i < n ==> cs[0].Shift(i) < next
    {
      n := n + 1;
    }
    SkipNoMatches(cs, k, n);
  }
}
