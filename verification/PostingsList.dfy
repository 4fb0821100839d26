/**
 The in-memory postings list (wiser.h:14-20): a singly linked list in ascending order of
 document id, and the operations that relink it: merge_postings (postings.c:472-507),
 LL_APPEND2 and LL_DELETE2 (utlist.h:333-366).
 */
module PostingsList {
  import opened Wrappers
  import opened MergeSort

  class Node {
    const documentId: int
    var positions: seq<int>
    var positionsCount: int
    var next: Node?

    constructor (documentId: int)
      ensures this.documentId == documentId && positions == [] && next == null
    {
      this.documentId := documentId;
      positions, positionsCount, next := [], 0, null;
    }
  }

  ghost predicate Linked(s: seq<Node>)
    reads s`next
  {
    forall i :: 0 <= i < |s| - 1 ==> s[i].next == s[i + 1]
  }

  ghost function Maybe(n: Node?): (s: set<Node>)
  {
    if n == null then {} else {n}
  }

  /** `head` leads through exactly the nodes `s` to NULL. */
  ghost predicate IsList(head: Node?, s: seq<Node>)
    reads s`next
  {
    && Linked(s) && Distinct(s)
    && (if s == [] then head == null else head == s[0] && s[|s| - 1].next == null)
  }

  function NodeId(n: Node): int
  {
    n.documentId
  }

  function LeqBy<T>(id: T -> int): Leq<T>
  {
    (a: T, b: T) => id(a) <= id(b)
  }

  /** `pa->document_id <= pb->document_id`. */
  function ById(): Leq<Node>
  {
    LeqBy(NodeId)
  }

  lemma ByIdIs(a: Node, b: Node)
    ensures ById()(a, b) <==> a.documentId <= b.documentId
  {
    assert NodeId(a) == a.documentId && NodeId(b) == b.documentId;
  }

  // ---------------------------------------------------------------------------
  // merge_postings
  // ---------------------------------------------------------------------------

  /** The nodes linked so far, and the unread rest of both lists. */
  ghost predicate Merging(out: seq<Node>, p: Node?, tail: Node?, pa: Node?, as_: seq<Node>, pb: Node?, bs: seq<Node>)
    reads out`next, as_`next, bs`next
  {
    && Linked(out) && Distinct(out)
    && (if out == [] then p == null && tail == null else p == out[0] && tail == out[|out| - 1] && tail.next == null)
    && IsList(pa, as_) && IsList(pb, bs)
    && (forall x :: x in out ==> x !in as_ && x !in bs)
    && (forall x :: x in as_ ==> x !in bs)
  }

  /** The body of the `while` loop once `e` is chosen: unlink it and append it. */
  method Link(e: Node, ret: Node?, p: Node?, ghost out: seq<Node>) returns (ret': Node, p': Node)
    requires Linked(out) && Distinct(out) && e !in out
    requires if out == [] then ret == null && p == null else ret == out[0] && p == out[|out| - 1]
    modifies e`next, Maybe(p)`next
    ensures Linked(out + [e]) && Distinct(out + [e]) && ret' == (out + [e])[0] && p' == e && e.next == null
  {
    e.next := null;
    if ret == null {
      ret' := e;
    } else {
      p.next := e;
      ret' := ret;
    }
    p' := e;
    ghost var all := out + [e];
    assert forall i :: 0 <= i < |out| ==> all[i] == out[i];
  }

  /** merge_postings: the same nodes, relinked into the merge of both lists. */
  method MergePostings(pa0: Node?, pb0: Node?, ghost as0: seq<Node>, ghost bs0: seq<Node>) returns (ret: Node?)
    requires IsList(pa0, as0) && IsList(pb0, bs0) && forall x :: x in as0 ==> x !in bs0
    modifies Members(as0 + bs0)`next
    ensures IsList(ret, Merge(ById(), as0, bs0))
  {
    hide Merging, Merge, Members, IsList;
    var pa, pb := pa0, pb0;
    var p: Node? := null;
    ret := null;
    ghost var out, as_, bs := [], as0, bs0;
    StartMerging(pa, as0, pb, bs0);
    while pa != null || pb != null
      invariant Merging(out, ret, p, pa, as_, pb, bs)
      invariant out + Merge(ById(), as_, bs) == Merge(ById(), as0, bs0)
      invariant Members(out + as_ + bs) <= Members(as0 + bs0)
      decreases |as_| + |bs|
    {
      pa, pb, ret, p, out, as_, bs := MergeStep(pa, pb, ret, p, out, as_, bs);
    }
    EndMerging(out, ret, p, as_, bs);
  }

  lemma StartMerging(pa: Node?, as_: seq<Node>, pb: Node?, bs: seq<Node>)
    requires IsList(pa, as_) && IsList(pb, bs) && forall x :: x in as_ ==> x !in bs
    ensures Merging([], null, null, pa, as_, pb, bs)
    ensures [] + as_ + bs == as_ + bs && [] + Merge(ById(), as_, bs) == Merge(ById(), as_, bs)
  {
  }

  lemma EndMerging(out: seq<Node>, ret: Node?, p: Node?, as_: seq<Node>, bs: seq<Node>)
    requires Merging(out, ret, p, null, as_, null, bs)
    ensures IsList(ret, out) && out + Merge(ById(), as_, bs) == out
  {
  }

  /** One round; the `abort` branch of the source cannot be reached. */
  method MergeStep(pa: Node?, pb: Node?, ret: Node?, p: Node?, ghost out: seq<Node>, ghost as_: seq<Node>,
                   ghost bs: seq<Node>)
      returns (pa': Node?, pb': Node?, ret': Node, p': Node, ghost out': seq<Node>, ghost as': seq<Node>,
               ghost bs': seq<Node>)
    requires Merging(out, ret, p, pa, as_, pb, bs) && (pa != null || pb != null)
    modifies Members(out + as_ + bs)`next
    ensures Merging(out', ret', p', pa', as', pb', bs')
    ensures |as'| + |bs'| < |as_| + |bs|
    ensures Members(out' + as' + bs') <= Members(out + as_ + bs)
    ensures out' + Merge(ById(), as', bs') == out + Merge(ById(), as_, bs)
  {
    hide Merge, Merging, ById;
    MergingHeads(out, ret, p, pa, as_, pb, bs);
    if pa != null && pb != null {
      ByIdIs(pa, pb);
    }
    pa', pb', as', bs' := pa, pb, as_, bs;
    if pb == null || (pa != null && pa.documentId <= pb.documentId) {
      TakeLeftStep(ById(), as_, bs);
      Assoc(out, [as_[0]], Merge(ById(), as_[1..], bs));
      pa', ret', p' := TakeLeft(pa, pb, ret, p, out, as_, bs);
      out', as' := out + [as_[0]], as_[1..];
    } else if pa == null || pa.documentId >= pb.documentId {
      TakeRightStep(ById(), as_, bs);
      Assoc(out, [bs[0]], Merge(ById(), as_, bs[1..]));
      pb', ret', p' := TakeRight(pa, pb, ret, p, out, as_, bs);
      out', bs' := out + [bs[0]], bs[1..];
    } else {
      assert false;
    }
  }

  lemma MergingHeads(out: seq<Node>, p: Node?, tail: Node?, pa: Node?, as_: seq<Node>, pb: Node?, bs: seq<Node>)
    requires Merging(out, p, tail, pa, as_, pb, bs)
    ensures if as_ == [] then pa == null else pa == as_[0]
    ensures if bs == [] then pb == null else pb == bs[0]
    ensures tail != null ==> tail in out
  {
  }

  method TakeLeft(pa: Node, pb: Node?, ret: Node?, p: Node?, ghost out: seq<Node>, ghost as_: seq<Node>,
                  ghost bs: seq<Node>)
      returns (pa': Node?, ret': Node, p': Node)
    requires Merging(out, ret, p, pa, as_, pb, bs)
    modifies pa`next, Maybe(p)`next
    ensures as_ != [] && Merging(out + [pa], ret', p', pa', as_[1..], pb, bs)
  {
    hide Merge;
    pa', ret', p' := TakeFrom(pa, ret, p, out, as_, bs);
  }

  method TakeRight(pa: Node?, pb: Node, ret: Node?, p: Node?, ghost out: seq<Node>, ghost as_: seq<Node>,
                   ghost bs: seq<Node>)
      returns (pb': Node?, ret': Node, p': Node)
    requires Merging(out, ret, p, pa, as_, pb, bs)
    modifies pb`next, Maybe(p)`next
    ensures bs != [] && Merging(out + [pb], ret', p', pa, as_, pb', bs[1..])
  {
    hide Merge;
    pb', ret', p' := TakeFrom(pb, ret, p, out, bs, as_);
  }

  /** The node at the head of the first list moves to the output; the other list is untouched. */
  method TakeFrom(e: Node, ret: Node?, p: Node?, ghost out: seq<Node>, ghost xs: seq<Node>, ghost ys: seq<Node>)
      returns (rest: Node?, ret': Node, p': Node)
    requires IsList(e, xs) && Linked(out) && Distinct(out)
    requires if out == [] then ret == null && p == null else ret == out[0] && p == out[|out| - 1] && p.next == null
    requires (forall x :: x in out ==> x !in xs && x !in ys) && forall x :: x in xs ==> x !in ys
    modifies e`next, Maybe(p)`next
    ensures Linked(out + [e]) && Distinct(out + [e])
    ensures ret' == (out + [e])[0] && p' == e && e.next == null
    ensures IsList(rest, xs[1..])
    ensures forall x :: x in ys ==> x.next == old(x.next)
  {
    rest := e.next;
    assert p != null ==> p == out[|out| - 1];
    ret', p' := Link(e, ret, p, out);
    assert p != null ==> p in out && p !in xs && p !in ys;
    assert forall j :: 1 <= j < |xs| ==> xs[j] != xs[0] && xs[j] != p;
    assert forall j :: 1 <= j < |xs| ==> xs[j].next == old(xs[j].next);
  }

  // ---------------------------------------------------------------------------
  // Appending and deleting
  // ---------------------------------------------------------------------------

  /** LL_APPEND2: walk to the last node and hang `add` there. */
  method Append(head: Node?, add: Node, ghost s: seq<Node>) returns (head': Node)
    requires IsList(head, s) && add !in s
    modifies add`next, (if s == [] then {} else {s[|s| - 1]})`next
    ensures IsList(head', s + [add])
  {
    add.next := null;
    if head == null {
      return add;
    }
    var tmp: Node := head;
    ghost var i := 0;
    while tmp.next != null
      invariant i < |s| && tmp == s[i] && (i < |s| - 1 ==> tmp.next == s[i + 1])
      decreases |s| - i
    {
      tmp := tmp.next;
      i := i + 1;
    }
    assert i == |s| - 1;
    tmp.next := add;
    head' := head;
    ghost var all := s + [add];
    assert forall j :: 0 <= j < |s| ==> all[j] == s[j];
  }

  /** LL_DELETE2: the node disappears from the list, or nothing changes if it is not there. */
  method Delete(head: Node?, del: Node, ghost s: seq<Node>) returns (head': Node?)
    requires IsList(head, s) && head != null
    modifies Members(s)`next
    ensures del in s ==> exists k :: 0 <= k < |s| && s[k] == del && IsList(head', s[..k] + s[k + 1..])
    ensures del !in s ==> head' == head && IsList(head, s)
  {
    if head == del {
      assert s[..0] + s[1..] == s[1..];
      assert forall j :: 1 <= j < |s| ==> s[j] != s[0];
      return head.next;
    }
    var tmp: Node := head;
    ghost var i := 0;
    while tmp.next != null && tmp.next != del
      invariant i < |s| && tmp == s[i] && (i < |s| - 1 ==> tmp.next == s[i + 1])
      invariant forall j :: 0 <= j <= i ==> s[j] != del
      decreases |s| - i
    {
      tmp := tmp.next;
      i := i + 1;
    }
    head' := head;
    if tmp.next != null {
      assert i + 1 < |s| && s[i + 1] == del;
      tmp.next := del.next;
      Spliced(s, i, head);
    } else {
      assert i == |s| - 1;
    }
  }

  /** The list after `s[i].next` has been moved past `s[i + 1]`. */
  lemma Spliced(s: seq<Node>, i: nat, head: Node)
    requires i + 1 < |s| && Distinct(s) && head == s[0]
    requires forall j :: 0 <= j < |s| - 1 && j != i ==> s[j].next == s[j + 1]
    requires s[i].next == (if i + 2 < |s| then s[i + 2] else null) && (i + 2 < |s| ==> s[|s| - 1].next == null)
    ensures IsList(head, s[..i + 1] + s[i + 2..])
  {
    var t := s[..i + 1] + s[i + 2..];
    assert forall j :: 0 <= j < |t| ==> t[j] == s[if j <= i then j else j + 1];
    assert Distinct(t);
  }

  // ---------------------------------------------------------------------------
  // What the merge is
  // ---------------------------------------------------------------------------

  ghost predicate AscendingIds<T>(id: T -> int, s: seq<T>)
  {
    forall i, j :: 0 <= i < j < |s| ==> id(s[i]) < id(s[j])
  }

  ghost predicate NoneShared<T>(id: T -> int, a: seq<T>, b: seq<T>)
  {
    forall x, y :: x in a && y in b ==> id(x) != id(y)
  }

  /** Merging two ascending lists of different documents gives one ascending list of all of them. */
  lemma MergeIsUnion<T>(id: T -> int, a: seq<T>, b: seq<T>)
    requires AscendingIds(id, a) && AscendingIds(id, b)
    requires NoneShared(id, a, b)
    ensures AscendingIds(id, Merge(LeqBy(id), a, b))
    ensures multiset(Merge(LeqBy(id), a, b)) == multiset(a) + multiset(b)
  {
    hide Merge;
    MergeKeepsElements(LeqBy(id), a, b);
    MergeAscends(id, a, b);
  }

  lemma {:induction false} MergeAscends<T>(id: T -> int, a: seq<T>, b: seq<T>)
    requires AscendingIds(id, a) && AscendingIds(id, b)
    requires NoneShared(id, a, b)
    ensures AscendingIds(id, Merge(LeqBy(id), a, b))
    decreases |a| + |b|
  {
    hide AscendingIds, Merge;
    if a == [] || b == [] {
      MergeEmpty(LeqBy(id), a, b);
      assert a + b == if a == [] then b else a;
    } else {
      AscendingTail(id, a);
      AscendingTail(id, b);
      assert a[0] in a && b[0] in b;
      if id(a[0]) <= id(b[0]) {
        TakeLeftStep(LeqBy(id), a, b);
        MergeAscends(id, a[1..], b);
        HeadBelow(id, a[0], a[1..], b);
      } else {
        TakeRightStep(LeqBy(id), a, b);
        MergeAscends(id, a, b[1..]);
        HeadBelow(id, b[0], a, b[1..]);
      }
    }
  }

  lemma AscendingTail<T>(id: T -> int, a: seq<T>)
    requires AscendingIds(id, a) && a != []
    ensures AscendingIds(id, a[1..]) && forall x :: x in a[1..] ==> x in a && id(a[0]) < id(x)
    ensures forall x :: x in a ==> id(a[0]) <= id(x)
  {
  }

  lemma HeadBelow<T>(id: T -> int, h: T, a: seq<T>, b: seq<T>)
    requires AscendingIds(id, Merge(LeqBy(id), a, b))
    requires (forall x :: x in a ==> id(h) < id(x)) && forall y :: y in b ==> id(h) < id(y)
    ensures AscendingIds(id, [h] + Merge(LeqBy(id), a, b))
  {
    hide Merge;
    var m := Merge(LeqBy(id), a, b);
    forall i | 0 <= i < |m|
      ensures id(h) < id(m[i])
    {
      MergeMember(LeqBy(id), a, b, m[i]);
    }
  }

  /** An ascending list is determined by its elements. */
  lemma {:induction false} AscendingIsUnique<T>(id: T -> int, a: seq<T>, b: seq<T>)
    requires AscendingIds(id, a) && AscendingIds(id, b) && multiset(a) == multiset(b)
    ensures a == b
    decreases |a|
  {
    hide AscendingIds;
    SameLength(a, b);
    if a != [] {
      SameTails(id, a, b);
      AscendingIsUnique(id, a[1..], b[1..]);
      assert a == [a[0]] + a[1..] && b == [b[0]] + b[1..];
    }
  }

  lemma SameTails<T>(id: T -> int, a: seq<T>, b: seq<T>)
    requires AscendingIds(id, a) && AscendingIds(id, b) && multiset(a) == multiset(b) && a != [] && b != []
    ensures a[0] == b[0] && multiset(a[1..]) == multiset(b[1..])
    ensures AscendingIds(id, a[1..]) && AscendingIds(id, b[1..])
  {
    SameHead(id, a, b);
    AscendingTail(id, a);
    AscendingTail(id, b);
    hide AscendingIds;
    TailMultiset(a);
    TailMultiset(b);
  }

  lemma TailMultiset<T>(a: seq<T>)
    requires a != []
    ensures multiset(a[1..]) == multiset(a) - multiset{a[0]}
  {
    assert a == [a[0]] + a[1..];
  }

  lemma SameHead<T>(id: T -> int, a: seq<T>, b: seq<T>)
    requires AscendingIds(id, a) && AscendingIds(id, b) && multiset(a) == multiset(b) && a != [] && b != []
    ensures a[0] == b[0]
  {
    SameElements(a, b);
    assert a[0] in b && b[0] in a;
    var i :| 0 <= i < |b| && b[i] == a[0];
    var j :| 0 <= j < |a| && a[j] == b[0];
    assert id(b[0]) <= id(a[0]) && id(a[0]) <= id(b[0]);
  }

  /** The order in which two batches are merged does not matter. */
  lemma {:induction false} MergeCommutes<T>(id: T -> int, a: seq<T>, b: seq<T>)
    requires AscendingIds(id, a) && AscendingIds(id, b)
    requires NoneShared(id, a, b)
    ensures Merge(LeqBy(id), a, b) == Merge(LeqBy(id), b, a)
  {
    hide Merge, AscendingIds;
    MergeIsUnion(id, a, b);
    MergeIsUnion(id, b, a);
    AscendingIsUnique(id, Merge(LeqBy(id), a, b), Merge(LeqBy(id), b, a));
  }

  /** Nor does the way in which three batches are grouped. */
  lemma {:induction false} MergeAssociates<T>(id: T -> int, a: seq<T>, b: seq<T>, c: seq<T>)
    requires AscendingIds(id, a) && AscendingIds(id, b) && AscendingIds(id, c)
    requires NoneShared(id, a, b) && NoneShared(id, a, c) && NoneShared(id, b, c)
    ensures Merge(LeqBy(id), Merge(LeqBy(id), a, b), c) == Merge(LeqBy(id), a, Merge(LeqBy(id), b, c))
  {
    var ab, bc := Merge(LeqBy(id), a, b), Merge(LeqBy(id), b, c);
    MergeIsUnion(id, a, b);
    MergeIsUnion(id, b, c);
    assert NoneShared(id, ab, c) by {
      SharesNothing(id, a, b, c);
    }
    assert NoneShared(id, a, bc) by {
      SharesNothing(id, b, c, a);
    }
    hide Merge, AscendingIds;
    MergeIsUnion(id, ab, c);
    MergeIsUnion(id, a, bc);
    AscendingIsUnique(id, Merge(LeqBy(id), ab, c), Merge(LeqBy(id), a, bc));
  }

  lemma SharesNothing<T>(id: T -> int, a: seq<T>, b: seq<T>, c: seq<T>)
    requires forall x, y :: x in a + b && y in c ==> id(x) != id(y)
    ensures NoneShared(id, Merge(LeqBy(id), a, b), c)
  {
    hide Merge;
    forall x, y | x in Merge(LeqBy(id), a, b) && y in c
      ensures id(x) != id(y)
    {
      MergeMember(LeqBy(id), a, b, x);
      assert x in a + b;
    }
  }

  /** A batch of later documents is simply appended. */
  lemma {:induction false} MergeLater<T>(id: T -> int, a: seq<T>, b: seq<T>)
    requires forall x, y :: x in a && y in b ==> id(x) < id(y)
    ensures Merge(LeqBy(id), a, b) == a + b
    decreases |a|
  {
    if a == [] {
      assert a + b == b;
    } else if b == [] {
      assert a + b == a;
    } else {
      assert forall x :: x in a[1..] ==> x in a;
      assert a[0] in a && b[0] in b;
      MergeLater(id, a[1..], b);
      assert a + b == [a[0]] + (a[1..] + b);
    }
  }
}
