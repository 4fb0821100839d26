/** LL_SORT2 (utlist.h:108-165): the same merge sort on a singly linked list. */
module ListSort {
  import opened Wrappers
  import opened MergeSort
  import opened PostingsList

  function First(s: seq<Node>): (n: Node?)
    ensures n == null <==> s == []
  {
    if s == [] then null else s[0]
  }

  function Final(s: seq<Node>): (n: Node?)
    ensures n == null <==> s == []
  {
    if s == [] then null else s[|s| - 1]
  }

  /** The unread part of the old list. */
  ghost predicate Rest(r: seq<Node>)
    reads r`next
  {
    Linked(r) && (r != [] ==> r[|r| - 1].next == null)
  }

  /** `_ls_e` goes to the end of the output list. */
  method Emit(e: Node, list: Node?, tail: Node?, ghost out: seq<Node>)
      returns (list': Node?, tail': Node)
    requires Linked(out) && e !in out && Distinct(out)
    requires list == First(out) && tail == Final(out)
    modifies Maybe(tail)`next
    ensures Linked(out + [e]) && Distinct(out + [e])
    ensures list' == First(out + [e]) && tail' == e
    ensures e.next == old(e.next)
  {
    list' := list;
    if tail != null {
      tail.next := e;
    } else {
      list' := e;
    }
    tail' := e;
    ghost var all := out + [e];
    assert forall i :: 0 <= i < |out| ==> all[i] == out[i];
  }

  /** Everything a merge knows about the heap: output, left run and rest of the list. */
  ghost predicate Merging(out: seq<Node>, ps: seq<Node>, rs: seq<Node>)
    reads out`next, ps`next, rs`next
  {
    Linked(out) && Linked(ps) && Rest(rs) && Disjoint3(out, ps, rs)
  }

  /** The inner `while` loop of LL_SORT2. */
  method MergeRuns(leq: Leq<Node>, p0: Node?, psize0: nat, q0: Node?, qsize0: nat,
                   list0: Node?, tail0: Node?,
                   ghost out0: seq<Node>, ghost ps0: seq<Node>, ghost rs0: seq<Node>)
      returns (list: Node?, tail: Node?, q: Node?, ghost out: seq<Node>)
    requires Merging(out0, ps0, rs0)
    requires |ps0| == psize0 && (ps0 != [] ==> p0 == ps0[0]) && q0 == First(rs0)
    requires list0 == First(out0) && tail0 == Final(out0)
    modifies Members(out0 + ps0 + rs0)`next
    ensures var n := Min(qsize0, |rs0|);
            && out == out0 + Merge(leq, ps0, rs0[..n])
            && q == First(rs0[n..]) && Merging(out, [], rs0[n..])
    ensures list == First(out) && tail == Final(out)
  {
    hide Merging, Merge, Members, Final;
    list, tail, q, out := list0, tail0, q0, out0;
    var p, psize, qsize := p0, psize0, qsize0;
    ghost var ps, rs := ps0, rs0;
    ghost var goal := out0 + Merge(leq, ps0, rs0[..Min(qsize0, |rs0|)]);
    while psize > 0 || (qsize > 0 && q != null)
      invariant Merging(out, ps, rs)
      invariant |ps| == psize && (ps != [] ==> p == ps[0]) && q == First(rs)
      invariant list == First(out) && tail == Final(out)
      invariant Members(out + ps + rs) <= Members(out0 + ps0 + rs0)
      invariant out + Merge(leq, ps, rs[..Min(qsize, |rs|)]) == goal
      invariant rs[Min(qsize, |rs|)..] == rs0[Min(qsize0, |rs0|)..]
      decreases psize + qsize
    {
      p, psize, q, qsize, list, tail, out, ps, rs := MergeOne(leq, p, psize, q, qsize, list, tail, out, ps, rs);
    }
    assert out == goal && q == First(rs) && rs[Min(qsize, |rs|)..] == rs && ps == [] by {
      assert ps == [] && (qsize == 0 || rs == []);
      MergeEnds(leq, out, rs, qsize);
    }
  }

  /** One round of the inner loop: `_ls_e` is taken from the left run or from the right one. */
  method MergeOne(leq: Leq<Node>, p: Node?, psize: nat, q: Node?, qsize: nat,
                  list: Node?, tail: Node?,
                  ghost out: seq<Node>, ghost ps: seq<Node>, ghost rs: seq<Node>)
      returns (p': Node?, psize': nat, q': Node?, qsize': nat, list': Node?, tail': Node?,
               ghost out': seq<Node>, ghost ps': seq<Node>, ghost rs': seq<Node>)
    requires Merging(out, ps, rs) && (psize > 0 || (qsize > 0 && q != null))
    requires |ps| == psize && (ps != [] ==> p == ps[0]) && q == First(rs)
    requires list == First(out) && tail == Final(out)
    modifies Members(out + ps + rs)`next
    ensures Merging(out', ps', rs') && psize' + qsize' < psize + qsize
    ensures |ps'| == psize' && (ps' != [] ==> p' == ps'[0]) && q' == First(rs')
    ensures list' == First(out') && tail' == Final(out')
    ensures Members(out' + ps' + rs') <= Members(out + ps + rs)
    ensures out' + Merge(leq, ps', rs'[..Min(qsize', |rs'|)]) == out + Merge(leq, ps, rs[..Min(qsize, |rs|)])
    ensures rs'[Min(qsize', |rs'|)..] == rs[Min(qsize, |rs|)..]
  {
    hide Merging, Merge;
    p', psize', q', qsize', ps', rs' := p, psize, q, qsize, ps, rs;
    ghost var run := rs[..Min(qsize, |rs|)];
    if psize == 0 || (qsize > 0 && q != null && !leq(p, q)) {
      TakeRightStep(leq, ps, run);
      Assoc(out, [rs[0]], Merge(leq, ps, run[1..]));
      q', list', tail' := TakeRight(q, list, tail, out, ps, rs);
      qsize' := qsize - 1;
      out', rs' := out + [rs[0]], rs[1..];
      SliceTail(rs, qsize);
    } else {
      TakeLeftStep(leq, ps, run);
      Assoc(out, [ps[0]], Merge(leq, ps[1..], run));
      p', list', tail' := TakeLeft(p, list, tail, out, ps, rs);
      psize' := psize - 1;
      out', ps' := out + [ps[0]], ps[1..];
    }
  }

  method TakeLeft(e: Node, list: Node?, tail: Node?,
                  ghost out: seq<Node>, ghost ps: seq<Node>, ghost rs: seq<Node>)
      returns (rest: Node?, list': Node?, tail': Node?)
    requires Merging(out, ps, rs) && ps != [] && e == ps[0]
    requires list == First(out) && tail == Final(out)
    modifies Maybe(tail)`next
    ensures Merging(out + [e], ps[1..], rs)
    ensures |ps| > 1 ==> rest == ps[1]
    ensures list' == First(out + [e]) && tail' == Final(out + [e])
  {
    rest := e.next;
    list', tail' := Emit(e, list, tail, out);
    DistinctSnoc(out, e);
    assert tail != null ==> tail == out[|out| - 1];
    assert forall n :: n in ps + rs ==> n.next == old(n.next);
  }

  method TakeRight(e: Node, list: Node?, tail: Node?,
                   ghost out: seq<Node>, ghost ps: seq<Node>, ghost rs: seq<Node>)
      returns (rest: Node?, list': Node?, tail': Node?)
    requires Merging(out, ps, rs) && rs != [] && e == rs[0]
    requires list == First(out) && tail == Final(out)
    modifies Maybe(tail)`next
    ensures Merging(out + [e], ps, rs[1..])
    ensures rest == First(rs[1..])
    ensures list' == First(out + [e]) && tail' == Final(out + [e])
  {
    rest := e.next;
    list', tail' := Emit(e, list, tail, out);
    DistinctSnoc(out, e);
    assert tail != null ==> tail == out[|out| - 1];
    assert forall n :: n in ps + rs ==> n.next == old(n.next);
  }

  /** The `for` loop that steps `_ls_q` over the left run. */
  method TakeRun(p: Node, insize: nat, ghost rs: seq<Node>) returns (q: Node?, psize: nat)
    requires Rest(rs) && rs != [] && p == rs[0] && insize > 0
    ensures psize == Min(insize, |rs|) && q == First(rs[psize..])
  {
    q, psize := p, 0;
    for i := 0 to insize
      invariant psize == i < |rs| && q == rs[i]
    {
      psize := psize + 1;
      q := q.next;
      assert i + 1 < |rs| ==> q == rs[i + 1];
      if q == null {
        return;
      }
    }
  }

  lemma StartPass(s: seq<Node>)
    requires IsList(First(s), s)
    ensures Merging([], [], s)
  {
  }

  lemma RestOfMerging(out: seq<Node>, rs: seq<Node>)
    requires Merging(out, [], rs)
    ensures Rest(rs)
  {
  }

  lemma SplitRest(out: seq<Node>, rs: seq<Node>, n: nat)
    requires Merging(out, [], rs) && n <= |rs|
    ensures Merging(out, rs[..n], rs[n..])
  {
  }

  /** One round of the middle `while` loop: two runs are taken and merged. */
  method SortRound(leq: Leq<Node>, p: Node, insize: nat, list0: Node?, tail0: Node?,
                   ghost out0: seq<Node>, ghost rs0: seq<Node>)
      returns (list: Node?, tail: Node?, p': Node?, ghost out: seq<Node>, ghost rs: seq<Node>)
    requires Merging(out0, [], rs0) && rs0 != [] && p == rs0[0] && insize > 0
    requires list0 == First(out0) && tail0 == Final(out0)
    modifies Members(out0 + rs0)`next
    ensures Merging(out, [], rs) && p' == First(rs)
    ensures list == First(out) && tail == Final(out)
    ensures out + Pass(leq, rs, insize) == out0 + Pass(leq, rs0, insize)
    ensures |out| == |out0| + Min(2 * insize, |rs0|) && |rs| < |rs0|
    ensures forall n :: n in out + rs ==> n in out0 + rs0
  {
    assert Rest(rs0) by {
      RestOfMerging(out0, rs0);
    }
    hide Merging, Merge, Pass, Rest, Members, First, Final;
    var q, psize := TakeRun(p, insize, rs0);
    SplitRest(out0, rs0, psize);
    RoundStep(leq, out0, rs0, psize, insize);
    rs := rs0[psize..][Min(insize, |rs0[psize..]|)..];
    list, tail, p', out := MergeRuns(leq, p, psize, q, insize, list0, tail0, out0, rs0[..psize], rs0[psize..]);
  }

  /** One pass over the whole list. */
  method SortPass(leq: Leq<Node>, head: Node, insize: nat, ghost s: seq<Node>)
      returns (list: Node, tail: Node, nmerges: nat, ghost out: seq<Node>)
    requires IsList(head, s) && s != [] && insize > 0
    modifies Members(s)`next
    ensures out == Pass(leq, s, insize) && IsList(First(out), out)
    ensures list == First(out) && tail == Final(out)
    ensures nmerges <= 1 <==> |s| <= 2 * insize
    ensures forall n :: n in out ==> n in s
  {
    hide Pass, Merging;
    var first: Node?, last: Node? := null, null;
    nmerges, out := 0, [];
    var p: Node? := head;
    ghost var rs := s;
    StartPass(s);
    while p != null
      invariant Merging(out, [], rs) && p == First(rs)
      invariant first == First(out) && last == Final(out)
      invariant out + Pass(leq, rs, insize) == Pass(leq, s, insize)
      invariant forall n :: n in out + rs ==> n in s
      invariant |out| + |rs| == |s|
      invariant if nmerges == 0 then out == []
                else if nmerges == 1 then |out| == Min(2 * insize, |s|)
                else |s| > 2 * insize
      decreases |rs|
    {
      first, last, p, out, rs := SortRound(leq, p, insize, first, last, out, rs);
      nmerges := nmerges + 1;
    }
    list, tail := first, last;
    EndList(tail, out);
  }

  /** `_ls_tail->next = NULL;` */
  method EndList(tail: Node, ghost out: seq<Node>)
    requires Merging(out, [], []) && tail == Final(out)
    modifies tail`next
    ensures IsList(First(out), out)
  {
    tail.next := null;
  }

  /** LL_SORT2: the list relinked as the sort says. */
  method LlSort2(leq: Leq<Node>, list: Node?, ghost s: seq<Node>) returns (list': Node?)
    requires IsList(list, s)
    modifies Members(s)`next
    ensures IsList(list', Sort(leq, s))
  {
    hide Pass, IsList;
    if list == null {
      assert s == [] && Sort(leq, s) == s by {
        EmptyList(s);
      }
      return null;
    }
    HeadIsFirst(list, s);
    var insize, nmerges, head: Node, tail: Node := 1, 0, list, list;
    ghost var out := s;
    head, tail, nmerges, out := SortPass(leq, list, insize, s);
    while nmerges > 1
      invariant insize > 0 && out != [] && IsList(First(out), out) && |out| == |s|
      invariant head == First(out)
      invariant nmerges <= 1 <==> |s| <= 2 * insize
      invariant Sort(leq, s) == if nmerges <= 1 then out else SortFrom(leq, out, 2 * insize)
      invariant forall n :: n in out ==> n in s
      decreases |s| - insize
    {
      insize := insize * 2;
      head, tail, nmerges, out := SortPass(leq, head, insize, out);
    }
    list' := head;
  }

  lemma EmptyList(s: seq<Node>)
    ensures IsList(null, s) ==> s == []
  {
  }

  lemma HeadIsFirst(list: Node, s: seq<Node>)
    requires IsList(list, s)
    ensures s != [] && list == First(s)
  {
  }
}
