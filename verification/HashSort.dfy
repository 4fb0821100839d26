/**
 HASH_SRT (uthash.h:719-796): the merge sort as it relinks the application-order list in place.
 */
module HashSort {
  import opened Wrappers
  import opened HashHandle
  import opened MergeSort

  /** The output list so far: linked both ways, its last `next` still to be set. */
  ghost predicate OutList<K>(out: seq<Handle<K>>)
    reads out`next, out`prev
  {
    Chained(out) && BackChained(out)
  }

  /** The unread part of the old list. */
  ghost predicate Rest<K>(r: seq<Handle<K>>)
    reads r`next
  {
    Chained(r) && Ended(r)
  }

  /** `_hs_e` goes to the end of the output list. */
  method Emit<K>(e: Handle<K>, list: Handle?<K>, tail: Handle?<K>, ghost out: seq<Handle<K>>)
      returns (list': Handle?<K>, tail': Handle<K>)
    requires OutList(out) && e !in out && Distinct(out)
    requires list == First(out) && tail == Final(out)
    modifies Maybe(tail)`next, e`prev
    ensures OutList(out + [e]) && Distinct(out + [e])
    ensures list' == First(out + [e]) && tail' == e
    ensures e.next == old(e.next)
  {
    list' := list;
    if tail != null {
      tail.next := e;
    } else {
      list' := e;
    }
    e.prev := tail;
    tail' := e;
    ghost var all := out + [e];
    assert forall i :: 0 <= i < |out| ==> all[i] == out[i];
  }

  /** Everything a merge knows about the heap: output, left run and rest of the list. */
  ghost predicate Merging<K>(out: seq<Handle<K>>, ps: seq<Handle<K>>, rs: seq<Handle<K>>)
    reads out`next, out`prev, ps`next, rs`next
  {
    OutList(out) && Chained(ps) && Rest(rs) && Disjoint3(out, ps, rs)
  }

  /** The inner `while` loop of HASH_SRT. */
  method MergeRuns<K>(leq: Leq<Handle<K>>, p0: Handle?<K>, psize0: nat, q0: Handle?<K>, qsize0: nat,
                      list0: Handle?<K>, tail0: Handle?<K>,
                      ghost out0: seq<Handle<K>>, ghost ps0: seq<Handle<K>>, ghost rs0: seq<Handle<K>>)
      returns (list: Handle?<K>, tail: Handle?<K>, q: Handle?<K>, ghost out: seq<Handle<K>>)
    requires Merging(out0, ps0, rs0)
    requires |ps0| == psize0 && (ps0 != [] ==> p0 == ps0[0]) && q0 == First(rs0)
    requires list0 == First(out0) && tail0 == Final(out0)
    modifies Members(out0 + ps0 + rs0)`next, Members(out0 + ps0 + rs0)`prev
    ensures var n := Min(qsize0, |rs0|);
            && out == out0 + Merge(leq, ps0, rs0[..n])
            && q == First(rs0[n..]) && Merging(out, [], rs0[n..])
    ensures list == First(out) && tail == Final(out)
  {
    hide Merging, Merge, Members, Final;
    list, tail, q, out := list0, tail0, q0, out0;
    var p, psize, qsize := p0, psize0, qsize0;
    ghost var ps, rs := ps0, rs0;
    ghost var goal := out0 + Merge(leq, ps0, rs0[..Min(qsize0, |rs0|)]);
    while psize > 0 || (qsize > 0 && q != null)
      invariant Merging(out, ps, rs)
      invariant |ps| == psize && (ps != [] ==> p == ps[0]) && q == First(rs)
      invariant list == First(out) && tail == Final(out)
      invariant Members(out + ps + rs) <= Members(out0 + ps0 + rs0)
      invariant out + Merge(leq, ps, rs[..Min(qsize, |rs|)]) == goal
      invariant rs[Min(qsize, |rs|)..] == rs0[Min(qsize0, |rs0|)..]
      decreases psize + qsize
    {
      p, psize, q, qsize, list, tail, out, ps, rs := MergeOne(leq, p, psize, q, qsize, list, tail, out, ps, rs);
    }
    assert out == goal && q == First(rs) && rs[Min(qsize, |rs|)..] == rs && ps == [] by {
      assert ps == [] && (qsize == 0 || rs == []);
      MergeEnds(leq, out, rs, qsize);
    }
  }

  /** One round of the inner loop: `_hs_e` is taken from the left run or from the right one. */
  method MergeOne<K>(leq: Leq<Handle<K>>, p: Handle?<K>, psize: nat, q: Handle?<K>, qsize: nat,
                     list: Handle?<K>, tail: Handle?<K>,
                     ghost out: seq<Handle<K>>, ghost ps: seq<Handle<K>>, ghost rs: seq<Handle<K>>)
      returns (p': Handle?<K>, psize': nat, q': Handle?<K>, qsize': nat, list': Handle?<K>, tail': Handle?<K>,
               ghost out': seq<Handle<K>>, ghost ps': seq<Handle<K>>, ghost rs': seq<Handle<K>>)
    requires Merging(out, ps, rs) && (psize > 0 || (qsize > 0 && q != null))
    requires |ps| == psize && (ps != [] ==> p == ps[0]) && q == First(rs)
    requires list == First(out) && tail == Final(out)
    modifies Members(out + ps + rs)`next, Members(out + ps + rs)`prev
    ensures Merging(out', ps', rs') && psize' + qsize' < psize + qsize
    ensures |ps'| == psize' && (ps' != [] ==> p' == ps'[0]) && q' == First(rs')
    ensures list' == First(out') && tail' == Final(out')
    ensures Members(out' + ps' + rs') <= Members(out + ps + rs)
    ensures out' + Merge(leq, ps', rs'[..Min(qsize', |rs'|)]) == out + Merge(leq, ps, rs[..Min(qsize, |rs|)])
    ensures rs'[Min(qsize', |rs'|)..] == rs[Min(qsize, |rs|)..]
  {
    hide Merging, Merge;
    p', psize', q', qsize', ps', rs' := p, psize, q, qsize, ps, rs;
    ghost var run := rs[..Min(qsize, |rs|)];
    if psize == 0 || (qsize > 0 && q != null && !leq(p, q)) {
      TakeRightStep(leq, ps, run);
      Assoc(out, [rs[0]], Merge(leq, ps, run[1..]));
      q', list', tail' := TakeRight(q, list, tail, out, ps, rs);
      qsize' := qsize - 1;
      out', rs' := out + [rs[0]], rs[1..];
      SliceTail(rs, qsize);
    } else {
      TakeLeftStep(leq, ps, run);
      Assoc(out, [ps[0]], Merge(leq, ps[1..], run));
      p', list', tail' := TakeLeft(p, list, tail, out, ps, rs);
      psize' := psize - 1;
      out', ps' := out + [ps[0]], ps[1..];
    }
  }

  method TakeLeft<K>(e: Handle<K>, list: Handle?<K>, tail: Handle?<K>,
                     ghost out: seq<Handle<K>>, ghost ps: seq<Handle<K>>, ghost rs: seq<Handle<K>>)
      returns (rest: Handle?<K>, list': Handle?<K>, tail': Handle?<K>)
    requires Merging(out, ps, rs) && ps != [] && e == ps[0]
    requires list == First(out) && tail == Final(out)
    modifies Maybe(tail)`next, e`prev
    ensures Merging(out + [e], ps[1..], rs)
    ensures |ps| > 1 ==> rest == ps[1]
    ensures list' == First(out + [e]) && tail' == Final(out + [e])
  {
    rest := e.next;
    list', tail' := Emit(e, list, tail, out);
    DistinctSnoc(out, e);
    assert tail != null ==> tail == out[|out| - 1];
    assert forall h :: h in ps + rs ==> h.next == old(h.next);
  }

  method TakeRight<K>(e: Handle<K>, list: Handle?<K>, tail: Handle?<K>,
                      ghost out: seq<Handle<K>>, ghost ps: seq<Handle<K>>, ghost rs: seq<Handle<K>>)
      returns (rest: Handle?<K>, list': Handle?<K>, tail': Handle?<K>)
    requires Merging(out, ps, rs) && rs != [] && e == rs[0]
    requires list == First(out) && tail == Final(out)
    modifies Maybe(tail)`next, e`prev
    ensures Merging(out + [e], ps, rs[1..])
    ensures rest == First(rs[1..])
    ensures list' == First(out + [e]) && tail' == Final(out + [e])
  {
    rest := e.next;
    list', tail' := Emit(e, list, tail, out);
    DistinctSnoc(out, e);
    assert tail != null ==> tail == out[|out| - 1];
    assert forall h :: h in ps + rs ==> h.next == old(h.next);
  }

  /** The `for` loop that steps `_hs_q` over the left run. */
  method TakeRun<K>(p: Handle<K>, insize: nat, ghost rs: seq<Handle<K>>) returns (q: Handle?<K>, psize: nat)
    requires Rest(rs) && rs != [] && p == rs[0] && insize > 0
    ensures psize == Min(insize, |rs|) && q == First(rs[psize..])
  {
    q, psize := p, 0;
    for i := 0 to insize
      invariant psize == i < |rs| && q == rs[i]
    {
      psize := psize + 1;
      q := q.next;
      assert i + 1 < |rs| ==> q == rs[i + 1];
      if q == null {
        return;
      }
    }
  }

  lemma StartPass<K>(s: seq<Handle<K>>)
    requires IsList(s)
    ensures Merging([], [], s)
  {
  }

  lemma RestOfMerging<K>(out: seq<Handle<K>>, rs: seq<Handle<K>>)
    requires Merging(out, [], rs)
    ensures Rest(rs)
  {
  }

  lemma SplitRest<K>(out: seq<Handle<K>>, rs: seq<Handle<K>>, n: nat)
    requires Merging(out, [], rs) && n <= |rs|
    ensures Merging(out, rs[..n], rs[n..])
  {
  }

  /** One round of the middle `while` loop: two runs are taken and merged. */
  method SortRound<K>(leq: Leq<Handle<K>>, p: Handle<K>, insize: nat, list0: Handle?<K>, tail0: Handle?<K>,
                      ghost out0: seq<Handle<K>>, ghost rs0: seq<Handle<K>>)
      returns (list: Handle?<K>, tail: Handle?<K>, p': Handle?<K>, ghost out: seq<Handle<K>>, ghost rs: seq<Handle<K>>)
    requires Merging(out0, [], rs0) && rs0 != [] && p == rs0[0] && insize > 0
    requires list0 == First(out0) && tail0 == Final(out0)
    modifies Members(out0 + rs0)`next, Members(out0 + rs0)`prev
    ensures Merging(out, [], rs) && p' == First(rs)
    ensures list == First(out) && tail == Final(out)
    ensures out + Pass(leq, rs, insize) == out0 + Pass(leq, rs0, insize)
    ensures |out| == |out0| + Min(2 * insize, |rs0|) && |rs| < |rs0|
    ensures forall h :: h in out + rs ==> h in out0 + rs0
  {
    assert Rest(rs0) by {
      RestOfMerging(out0, rs0);
    }
    hide Merging, Merge, Pass, Rest, Members, First, Final;
    var q, psize := TakeRun(p, insize, rs0);
    SplitRest(out0, rs0, psize);
    RoundStep(leq, out0, rs0, psize, insize);
    rs := rs0[psize..][Min(insize, |rs0[psize..]|)..];
    list, tail, p', out := MergeRuns(leq, p, psize, q, insize, list0, tail0, out0, rs0[..psize], rs0[psize..]);
  }

  /** One pass over the whole list. */
  method SortPass<K>(leq: Leq<Handle<K>>, head: Handle<K>, insize: nat, ghost s: seq<Handle<K>>)
      returns (list: Handle<K>, tail: Handle<K>, nmerges: nat, ghost out: seq<Handle<K>>)
    requires IsList(s) && s != [] && head == s[0] && insize > 0
    modifies Members(s)`next, Members(s)`prev
    ensures out == Pass(leq, s, insize) && IsList(out)
    ensures list == First(out) && tail == Final(out)
    ensures nmerges <= 1 <==> |s| <= 2 * insize
    ensures forall h :: h in out ==> h in s
  {
    hide Pass, Merging;
    var first: Handle?<K>, last: Handle?<K> := null, null;
    nmerges, out := 0, [];
    var p: Handle?<K> := head;
    ghost var rs := s;
    StartPass(s);
    while p != null
      invariant Merging(out, [], rs) && p == First(rs)
      invariant first == First(out) && last == Final(out)
      invariant out + Pass(leq, rs, insize) == Pass(leq, s, insize)
      invariant forall h :: h in out + rs ==> h in s
      invariant |out| + |rs| == |s|
      invariant if nmerges == 0 then out == []
                else if nmerges == 1 then |out| == Min(2 * insize, |s|)
                else |s| > 2 * insize
      decreases |rs|
    {
      first, last, p, out, rs := SortRound(leq, p, insize, first, last, out, rs);
      nmerges := nmerges + 1;
    }
    list, tail := first, last;
    EndList(tail, out);
  }

  /** `_hs_tail->next = NULL;` */
  method EndList<K>(tail: Handle<K>, ghost out: seq<Handle<K>>)
    requires Merging(out, [], []) && tail == Final(out)
    modifies tail`next
    ensures IsList(out)
  {
    tail.next := null;
  }

  /** HASH_SRT on a non-empty list: new head, new `tbl->tail`, and the list relinked as the sort says. */
  method HashSrt<K>(leq: Leq<Handle<K>>, head: Handle<K>, ghost s: seq<Handle<K>>)
      returns (head': Handle<K>, tail: Handle<K>, ghost out: seq<Handle<K>>)
    requires IsList(s) && s != [] && head == s[0]
    modifies Members(s)`next, Members(s)`prev
    ensures out == Sort(leq, s) && IsList(out)
    ensures head' == First(out) && tail == Final(out)
  {
    hide Pass, IsList;
    var insize, nmerges := 1, 0;
    head', tail, nmerges, out := SortPass(leq, head, insize, s);
    while nmerges > 1
      invariant insize > 0 && out != [] && IsList(out) && |out| == |s|
      invariant head' == First(out) && tail == Final(out)
      invariant nmerges <= 1 <==> |s| <= 2 * insize
      invariant Sort(leq, s) == if nmerges <= 1 then out else SortFrom(leq, out, 2 * insize)
      invariant forall h :: h in out ==> h in s
      decreases |s| - insize
    {
      insize := insize * 2;
      head', tail, nmerges, out := SortPass(leq, head', insize, out);
    }
  }
}
