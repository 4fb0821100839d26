/**
 The hash table of uthash (uthash.h:94-105, 141-158, 173-248, 719-796): items are found through buckets and
 listed in application order. `Table` stands for the user's head pointer together with its UT_hash_table.
 */
module UtHash {
  import opened Wrappers
  import opened HashBuckets
  import opened HashHandle
  import Golomb
  import HashSort
  import MergeSort

  const HASH_INITIAL_NUM_BUCKETS := 32
  const HASH_INITIAL_NUM_BUCKETS_LOG2 := 5
  const HASH_BKT_CAPACITY_THRESH := 10

  ghost predicate KeysDistinct<K>(s: seq<Handle<K>>)
  {
    forall i, j :: 0 <= i < j < |s| ==> s[i].key != s[j].key
  }

  /** The abstract map a list of items stands for. */
  ghost function Contents<K>(s: seq<Handle<K>>): (m: map<K, Handle<K>>)
    requires KeysDistinct(s)
  {
    map h | h in s :: h.key := h
  }

  lemma ContentsAdd<K>(s: seq<Handle<K>>, h: Handle<K>)
    requires KeysDistinct(s) && forall g :: g in s ==> g.key != h.key
    ensures KeysDistinct(s + [h]) && Contents(s + [h]) == Contents(s)[h.key := h]
  {
    var t := s + [h];
    forall i, j | 0 <= i < j < |t|
      ensures t[i].key != t[j].key
    {
      assert s[i] in s;
    }
  }

  lemma MembersAdd<K>(s: seq<Handle<K>>, h: Handle<K>)
    ensures Members(s + [h]) == Members(s) + {h}
  {
  }

  lemma ContentsWithout<K>(s: seq<Handle<K>>, k: nat)
    requires KeysDistinct(s) && k < |s|
    ensures KeysDistinct(Without(s, k)) && Contents(Without(s, k)) == Contents(s) - {s[k].key}
  {
    WithoutMembers(s, k);
    WithoutKeys(s, k);
    hide Without, KeysDistinct;
    SameKeySameItem(s);
  }

  lemma WithoutKeys<K>(s: seq<Handle<K>>, k: nat)
    requires KeysDistinct(s) && k < |s|
    ensures KeysDistinct(Without(s, k))
  {
    var t := Without(s, k);
    assert forall i :: 0 <= i < k ==> t[i] == s[i];
    assert forall i :: k <= i < |t| ==> t[i] == s[i + 1];
  }

  lemma SameKeySameItem<K>(s: seq<Handle<K>>)
    requires KeysDistinct(s)
    ensures forall g, h :: g in s && h in s && g.key == h.key ==> g == h
  {
  }

  // ---------------------------------------------------------------------------
  // The application-order list
  // ---------------------------------------------------------------------------

  /** The end of the list moves on to `h`. */
  method AppendItem<K>(h: Handle<K>, tail: Handle<K>, ghost s: seq<Handle<K>>)
    requires IsList(s) && tail == Final(s) && h !in s
    modifies h`next, h`prev, tail`next
    ensures IsList(s + [h])
  {
    h.next := null;
    tail.next := h;
    h.prev := tail;
    ghost var t := s + [h];
    assert forall i :: 0 <= i < |s| ==> t[i] == s[i];
  }

  /** The patch-up of HASH_DELETE when other items remain. */
  method UnlinkItem<K>(h: Handle<K>, head: Handle<K>, tail: Handle<K>, ghost s: seq<Handle<K>>, ghost k: nat)
      returns (head': Handle<K>, tail': Handle<K>)
    requires IsList(s) && k < |s| && s[k] == h && head == s[0] && tail == Final(s)
    requires !(h.prev == null && h.next == null)
    modifies Maybe(h.prev)`next, Maybe(h.next)`prev
    ensures |s| >= 2 && IsList(Without(s, k))
    ensures head' == First(Without(s, k)) && tail' == Final(Without(s, k))
  {
    ghost var before := if k == 0 then null else s[k - 1];
    ghost var after := if k + 1 == |s| then null else s[k + 1];
    assert h.prev == before && h.next == after;
    head', tail' := head, tail;
    if h == tail {
      tail' := h.prev;
    }
    if h.prev != null {
      h.prev.next := h.next;
    } else {
      head' := h.next;
    }
    if h.next != null {
      h.next.prev := h.prev;
    }
    ghost var t := Without(s, k);
    assert forall i :: 0 <= i < k ==> t[i] == s[i];
    assert forall i :: k <= i < |t| ==> t[i] == s[i + 1];
    assert forall i :: 0 <= i < |s| && i != k - 1 ==> s[i].next == old(s[i].next);
    assert forall i :: 0 <= i < |s| && i != k + 1 ==> s[i].prev == old(s[i].prev);
  }

  class Table<K(==)> {
    const hash: K -> nat
    var head: Handle?<K>
    var tail: Handle?<K>
    var buckets: array?<Bucket<K>>
    var numBuckets: nat
    var log2NumBuckets: nat
    var numItems: nat
    var idealChainMaxlen: nat
    var nonidealItems: nat
    var ineffExpands: nat
    var noexpand: bool
    ghost var items: seq<Handle<K>>
    ghost var chains: seq<seq<Handle<K>>>

    ghost predicate Listed()
      reads this`items, this`head, this`tail, this`numItems, items`next, items`prev
    {
      IsList(items) && head == First(items) && tail == Final(items) && numItems == |items|
    }

    ghost predicate Bucketed(members: set<Handle<K>>)
      reads this`buckets, this`numBuckets, this`log2NumBuckets, this`chains, buckets
      reads members`hashv, members`hhNext, members`hhPrev
    {
      && buckets != null && numBuckets == buckets.Length == Golomb.Pow2(log2NumBuckets)
      && TableOk(hash, buckets, chains, members) && Hashed(hash, members)
    }

    /** Without items there is no table. */
    ghost predicate Linked()
      reads this, buckets, items
    {
      if items == [] then head == null && buckets == null else Listed() && Bucketed(Members(items))
    }

    /** Keys are the caller's business: the operations keep `Linked` with items of the same key, too. */
    ghost predicate Valid()
      reads this, buckets, items
    {
      KeysDistinct(items) && Linked()
    }

    constructor (hash: K -> nat)
      ensures Valid() && items == [] && this.hash == hash
    {
      this.hash := hash;
      head, tail, buckets := null, null, null;
      items := [];
    }

    /** HASH_FIND: some item with the key if there is one, and so exactly the look-up in the abstract map. */
    method Find(key: K) returns (out: Handle?<K>)
      requires Linked()
      ensures out != null ==> out in items && out.key == key
      ensures out == null ==> forall h :: h in items ==> h.key != key
      ensures KeysDistinct(items) ==> out == if key in Contents(items) then Contents(items)[key] else null
    {
      out := null;
      if head != null {
        AndMask(hash(key), log2NumBuckets);
        hide Golomb.Pow2, And, IsList, IsChain, KeysDistinct, Listed;
        var bkt := And(hash(key), numBuckets - 1);
        assert BucketOk(buckets[bkt], chains[bkt]);
        InItsBucket(hash, chains, items, key);
        out := FindInBkt(buckets[bkt].hhHead, key, chains[bkt]);
        if KeysDistinct(items) {
          SameKeySameItem(items);
        }
      }
    }

    /** HASH_MAKE_TABLE, for the first item. */
    method MakeTable()
      modifies this`buckets, this`numBuckets, this`log2NumBuckets, this`numItems, this`idealChainMaxlen,
               this`nonidealItems, this`ineffExpands, this`noexpand, this`chains
      ensures Bucketed({}) && fresh(buckets) && numItems == 0 && !noexpand && numBuckets == 32
    {
      numBuckets, log2NumBuckets := HASH_INITIAL_NUM_BUCKETS, HASH_INITIAL_NUM_BUCKETS_LOG2;
      numItems, idealChainMaxlen, nonidealItems, ineffExpands, noexpand := 0, 0, 0, 0, false;
      buckets, chains := NewBuckets(hash, HASH_INITIAL_NUM_BUCKETS);
      assert Golomb.Pow2(3) == 8;
    }

    /**
     HASH_EXPAND_BUCKETS: twice as many buckets, the ideal chain length is the number of items over the new number of
     buckets rounded up, and expansion is given up after two doublings that left most items in non-ideal positions.
     */
    method ExpandBuckets(ghost members: set<Handle<K>>)
      requires Bucketed(members) && numItems > 0
      modifies this`buckets, this`numBuckets, this`log2NumBuckets, this`idealChainMaxlen, this`nonidealItems,
               this`ineffExpands, this`noexpand, this`chains, members`hhNext, members`hhPrev
      ensures Bucketed(members) && fresh(buckets)
      ensures numBuckets == 2 * old(numBuckets)
      ensures idealChainMaxlen > 0 && IsCeiling(idealChainMaxlen, numItems, numBuckets)
      ensures Multiplied(buckets, idealChainMaxlen) && nonidealItems == Excess(chains, idealChainMaxlen)
      ensures ineffExpands == if nonidealItems > numItems / 2 then old(ineffExpands) + 1 else 0
      ensures noexpand <==> old(noexpand) || ineffExpands > 1
    {
      hide TableOk, Multiplied, IsCeiling, Excess;
      IdealChainIsCeiling(numItems, log2NumBuckets + 1);
      assert Golomb.Pow2(log2NumBuckets + 1) == 2 * numBuckets;
      hide IdealChain, Golomb.Pow2;
      idealChainMaxlen := IdealChain(numItems, log2NumBuckets + 1);
      buckets, nonidealItems, chains := Redistribute(hash, buckets, idealChainMaxlen, log2NumBuckets + 1,
                                                        chains, members);
      numBuckets := numBuckets * 2;
      log2NumBuckets := log2NumBuckets + 1;
      ineffExpands := if nonidealItems > numItems / 2 then ineffExpands + 1 else 0;
      if ineffExpands > 1 {
        noexpand := true;
      }
    }

    /** HASH_ADD_TO_BKT: the item enters its bucket; a bucket that reaches its limit makes the table grow. */
    method AddToBkt(h: Handle<K>, bkt: nat, ghost members: set<Handle<K>>)
      requires Bucketed(members) && h !in members && numItems > 0
      requires h.hashv == hash(h.key) && bkt == Home(hash, numBuckets, h)
      modifies this`buckets, this`numBuckets, this`log2NumBuckets, this`idealChainMaxlen, this`nonidealItems,
               this`ineffExpands, this`noexpand, this`chains, buckets,
               h`hhNext, h`hhPrev, members`hhNext, members`hhPrev
      ensures Bucketed(members + {h}) && (buckets == old(buckets) || fresh(buckets))
      ensures var limit := old((buckets[bkt].expandMult + 1) * 10);
              var grows := old(buckets[bkt].count) + 1 >= limit && !old(noexpand);
              numBuckets == if grows then 2 * old(numBuckets) else old(numBuckets)
    {
      hide Golomb.Pow2, Placed, Excess, IsCeiling, Multiplied, Home;
      HeadIsMember(hash, buckets, chains, members, bkt);
      ghost var count := buckets[bkt].count;
      PutInBucket(hash, buckets, h, bkt, chains, members);
      chains := chains[bkt := [h] + chains[bkt]];
      assert BucketOk(buckets[bkt], chains[bkt]);
      hide TableOk;
      if buckets[bkt].count >= (buckets[bkt].expandMult + 1) * HASH_BKT_CAPACITY_THRESH && !noexpand {
        ExpandBuckets(members + {h});
      }
    }

    /** The first half of HASH_ADD_KEYPTR: the end of the list, or a new table. */
    method AddToList(h: Handle<K>)
      requires Linked() && h !in items
      modifies this, h`next, h`prev, items`next
      ensures items == old(items) + [h] && Listed()
      ensures Bucketed(Members(old(items))) && (buckets == old(buckets) || fresh(buckets))
    {
      hide Golomb.Pow2, TableOk, KeysDistinct, IsList;
      h.next := null;
      if head == null {
        head := h;
        h.prev := null;
        tail := h;
        MakeTable();
        ListOfOne(h);
        assert Members(items) == {};
      } else {
        AppendItem(h, tail, items);
        tail := h;
      }
      items := items + [h];
      numItems := numItems + 1;
    }

    /** The second half of HASH_ADD_KEYPTR: the hash value and the bucket. */
    method AddToTable(h: Handle<K>, ghost members: set<Handle<K>>)
      requires Bucketed(members) && h !in members && numItems > 0
      modifies this`buckets, this`numBuckets, this`log2NumBuckets, this`idealChainMaxlen, this`nonidealItems,
               this`ineffExpands, this`noexpand, this`chains, buckets,
               h`hashv, h`hhNext, h`hhPrev, members`hhNext, members`hhPrev
      ensures Bucketed(members + {h}) && (buckets == old(buckets) || fresh(buckets))
    {
      hide TableOk;
      h.hashv := hash(h.key);
      AndMask(h.hashv, log2NumBuckets);
      AddToBkt(h, And(h.hashv, numBuckets - 1), members);
    }

    /** HASH_ADD_KEYPTR, which does not look for the key; for a new one, the abstract map gets it. */
    method Add(h: Handle<K>)
      requires Linked() && h !in items
      modifies this, buckets, items, h
      ensures Linked() && items == old(items) + [h]
      ensures KeysDistinct(old(items)) && (forall g :: g in old(items) ==> g.key != h.key) ==>
                Valid() && Contents(items) == old(Contents(items))[h.key := h]
    {
      MembersAdd(items, h);
      if KeysDistinct(items) && forall g :: g in items ==> g.key != h.key {
        ContentsAdd(items, h);
      }
      hide *;
      AddItem(h);
    }

    method AddItem(h: Handle<K>)
      requires Linked() && h !in items
      modifies this, buckets, items, h
      ensures Listed() && Bucketed(Members(old(items)) + {h}) && items == old(items) + [h]
    {
      hide Bucketed, IsList;
      ghost var members := Members(items);
      AddToList(h);
      AddToTable(h, members);
    }

    /** HASH_DELETE of an item of the table; with the last item the table goes. */
    method Delete(h: Handle<K>)
      requires Linked() && h in items
      modifies this, buckets, items
      ensures Linked()
      ensures exists k :: 0 <= k < |old(items)| && old(items)[k] == h && items == Without(old(items), k)
      ensures KeysDistinct(old(items)) ==> Valid() && Contents(items) == old(Contents(items)) - {h.key}
    {
      ghost var k :| 0 <= k < |items| && items[k] == h;
      ItemsWithout(k);
      hide *;
      DeleteItem(h, k);
    }

    lemma ItemsWithout(k: nat)
      requires Linked() && k < |items|
      ensures Members(Without(items, k)) == Members(items) - {items[k]}
      ensures KeysDistinct(items) ==>
                KeysDistinct(Without(items, k)) && Contents(Without(items, k)) == Contents(items) - {items[k].key}
    {
      WithoutMembers(items, k);
      if KeysDistinct(items) {
        ContentsWithout(items, k);
      }
      hide Without, KeysDistinct, IsList, Bucketed;
    }

    method DeleteItem(h: Handle<K>, ghost k: nat)
      requires Linked() && k < |items| && items[k] == h && Members(Without(items, k)) == Members(items) - {h}
      modifies this, buckets, items
      ensures Linked() && items == Without(old(items), k)
    {
      hide Without, Bucketed, IsList;
      ghost var members := Members(items);
      if h.prev == null && h.next == null {
        LoneItem(items, k);
        head, buckets := null, null;
        items := [];
      } else {
        DeleteFromList(h, k);
        DeleteFromTable(h, members);
      }
    }

    /** The list half of HASH_DELETE when other items remain. */
    method DeleteFromList(h: Handle<K>, ghost k: nat)
      requires Listed() && k < |items| && items[k] == h && !(h.prev == null && h.next == null)
      modifies this`head, this`tail, this`items, this`numItems, items`next, items`prev
      ensures Listed() && items == Without(old(items), k) && items != []
    {
      ItemNeighbours(items, k);
      WithoutLength(items, k);
      hide IsList, Without;
      head, tail := UnlinkItem(h, head, tail, items, k);
      items := Without(items, k);
      numItems := numItems - 1;
    }

    lemma InChain(h: Handle<K>, members: set<Handle<K>>) returns (k: nat)
      requires Bucketed(members) && h in members
      ensures |chains| == numBuckets
      ensures var c := chains[Home(hash, numBuckets, h)]; k < |c| && c[k] == h
      ensures Maybe(h.hhPrev) + Maybe(h.hhNext) <= members
    {
      hide IsChain, Home;
      var b := Home(hash, numBuckets, h);
      assert BucketOk(buckets[b], chains[b]);
      k :| 0 <= k < |chains[b]| && chains[b][k] == h;
      Neighbours(chains[b], k);
    }

    /** The bucket half of HASH_DELETE. */
    method DeleteFromTable(h: Handle<K>, ghost members: set<Handle<K>>)
      requires Bucketed(members) && h in members
      modifies this`chains, buckets, members`hhNext, members`hhPrev
      ensures Bucketed(members - {h})
    {
      AndMask(h.hashv, log2NumBuckets);
      assert h.hashv == hash(h.key);
      ghost var k := InChain(h, members);
      hide Golomb.Pow2, And, TableOk, Without;
      var bkt := And(h.hashv, numBuckets - 1);
      assert bkt == Home(hash, numBuckets, h) && bkt < |chains|;
      hide Home;
      TakeFromBucket(hash, buckets, h, bkt, chains, members, k);
      chains := chains[bkt := Without(chains[bkt], k)];
    }

    /** HASH_SRT of the whole table: the items in their stably sorted order, the same map, the same buckets. */
    method SortItems(leq: MergeSort.Leq<Handle<K>>)
      requires Linked()
      modifies this`head, this`tail, this`items, items`next, items`prev
      ensures Linked() && items == MergeSort.Sort(leq, old(items))
      ensures KeysDistinct(old(items)) ==> Valid() && Contents(items) == old(Contents(items))
    {
      SortKeepsMembers(leq, items);
      if KeysDistinct(items) {
        SortKeepsContents(leq, items);
      }
      hide *;
      SortLinks(leq);
    }

    method SortLinks(leq: MergeSort.Leq<Handle<K>>)
      requires Linked() && Members(MergeSort.Sort(leq, items)) == Members(items)
      modifies this`head, this`tail, this`items, items`next, items`prev
      ensures Linked() && items == MergeSort.Sort(leq, old(items))
    {
      hide Bucketed, MergeSort.Sort, IsList;
      if items == [] {
        assert MergeSort.Sort(leq, items) == [];
      }
      if head != null {
        head, tail, items := HashSort.HashSrt(leq, head, items);
      }
    }
  }

  lemma SortKeepsMembers<K>(leq: MergeSort.Leq<Handle<K>>, s: seq<Handle<K>>)
    ensures multiset(MergeSort.Sort(leq, s)) == multiset(s) && Members(MergeSort.Sort(leq, s)) == Members(s)
  {
    var t := MergeSort.Sort(leq, s);
    MergeSort.SortKeepsElements(leq, s, 1);
    hide MergeSort.SortFrom;
    MergeSort.SameElements(t, s);
    SameMembers(t, s);
  }

  lemma SameMembers<K>(s: seq<Handle<K>>, t: seq<Handle<K>>)
    requires forall h :: h in s <==> h in t
    ensures Members(s) == Members(t)
  {
  }

  lemma SortKeepsContents<K>(leq: MergeSort.Leq<Handle<K>>, s: seq<Handle<K>>)
    requires KeysDistinct(s)
    ensures KeysDistinct(MergeSort.Sort(leq, s)) && Contents(MergeSort.Sort(leq, s)) == Contents(s)
  {
    var t := MergeSort.Sort(leq, s);
    SortKeepsMembers(leq, s);
    hide MergeSort.Sort;
    PermutedKeys(s, t);
    MergeSort.SameElements(s, t);
    SameContents(s, t);
  }

  lemma SameContents<K>(s: seq<Handle<K>>, t: seq<Handle<K>>)
    requires KeysDistinct(s) && KeysDistinct(t) && forall h :: h in s <==> h in t
    ensures Contents(s) == Contents(t)
  {
    SameKeySameItem(s);
    SameKeySameItem(t);
    hide KeysDistinct;
    forall key | key in Contents(s)
      ensures key in Contents(t) && Contents(t)[key] == Contents(s)[key]
    {
      var h := Contents(s)[key];
      assert h in t && h.key == key;
    }
    forall key | key in Contents(t)
      ensures key in Contents(s)
    {
      var h := Contents(t)[key];
      assert h in s && h.key == key;
    }
  }

  lemma PermutedKeys<K>(s: seq<Handle<K>>, t: seq<Handle<K>>)
    requires KeysDistinct(s) && multiset(s) == multiset(t)
    ensures KeysDistinct(t)
  {
    MergeSort.PermutedDistinct((h: Handle<K>) => h.key, s, t);
  }

  /** What prev and next of an item are. */
  lemma Around<K>(s: seq<Handle<K>>, k: nat)
    requires IsList(s) && k < |s|
    ensures s[k].prev == if k == 0 then null else s[k - 1]
    ensures s[k].next == if k + 1 == |s| then null else s[k + 1]
  {
  }

  lemma LoneItem<K>(s: seq<Handle<K>>, k: nat)
    requires IsList(s) && k < |s| && s[k].prev == null && s[k].next == null
    ensures k == 0 && s == [s[0]] && Without(s, k) == []
  {
    Around(s, k);
  }

  lemma ItemNeighbours<K>(s: seq<Handle<K>>, k: nat)
    requires IsList(s) && k < |s|
    ensures Maybe(s[k].prev) + Maybe(s[k].next) <= Members(s)
  {
    Around(s, k);
  }

  lemma ListOfOne<K>(h: Handle<K>)
    ensures h.next == null && h.prev == null ==> IsList([] + [h])
  {
  }

  /** HASH_FIND_IN_BKT. */
  method FindInBkt<K(==)>(hhHead: Handle?<K>, key: K, ghost c: seq<Handle<K>>) returns (out: Handle?<K>)
    requires IsChain(c) && hhHead == First(c)
    ensures out != null ==> out in c && out.key == key
    ensures out == null ==> forall h :: h in c ==> h.key != key
  {
    out := hhHead;
    ghost var i := 0;
    while out != null
      invariant 0 <= i <= |c| && out == (if i < |c| then c[i] else null)
      invariant forall j :: 0 <= j < i ==> c[j].key != key
      decreases |c| - i
    {
      if out.key == key {
        break;
      }
      out := out.hhNext;
      i := i + 1;
    }
  }

  /** Whatever has the key is in the bucket of the key. */
  lemma InItsBucket<K>(hash: K -> nat, chains: seq<seq<Handle<K>>>, items: seq<Handle<K>>, key: K)
    requires Placed(hash, chains, Members(items))
    ensures var c := chains[hash(key) % |chains|];
            && (forall h :: h in items && h.key == key ==> h in c)
            && (forall h :: h in c ==> h in items)
  {
    forall h | h in chains[hash(key) % |chains|]
      ensures h in items
    {
      assert h in Members(items);
    }
    forall h | h in items && h.key == key
      ensures h in chains[hash(key) % |chains|]
    {
      assert h in Members(items) && Home(hash, |chains|, h) == hash(key) % |chains|;
    }
  }
}
