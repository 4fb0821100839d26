/** The integrity check of uthash (HASH_FSCK, uthash.h:278-328), and that it never objects. */
module HashCheck {
  import opened Wrappers
  import opened HashBuckets
  import opened HashHandle
  import opened UtHash
  import Golomb

  // ---------------------------------------------------------------------------
  // The counts agree
  // ---------------------------------------------------------------------------

  function Total<K>(chains: seq<seq<Handle<K>>>): (n: nat)
    decreases |chains|
  {
    if chains == [] then 0 else |chains[0]| + Total(chains[1..])
  }

  ghost function AllOf<K>(chains: seq<seq<Handle<K>>>): (s: set<Handle<K>>)
    decreases |chains|
  {
    if chains == [] then {} else Members(chains[0]) + AllOf(chains[1..])
  }

  ghost predicate Apart<K>(chains: seq<seq<Handle<K>>>)
  {
    && (forall i :: 0 <= i < |chains| ==> Distinct(chains[i]))
    && (forall i, j :: 0 <= i < j < |chains| ==> Members(chains[i]) !! Members(chains[j]))
  }

  lemma {:induction false} MembersCount<K>(c: seq<Handle<K>>)
    requires Distinct(c)
    ensures |Members(c)| == |c|
    decreases |c|
  {
    if c == [] {
      assert Members(c) == {};
    } else {
      var t := c[1..];
      assert forall i :: 0 <= i < |t| ==> t[i] == c[i + 1];
      MembersCount(t);
      assert Members(c) == {c[0]} + Members(t);
      assert c[0] !in Members(t);
    }
  }

  lemma {:induction false} AllOfMeans<K>(chains: seq<seq<Handle<K>>>, h: Handle<K>)
    ensures h in AllOf(chains) <==> exists i :: 0 <= i < |chains| && h in chains[i]
    decreases |chains|
  {
    if chains != [] {
      AllOfMeans(chains[1..], h);
      assert chains == [chains[0]] + chains[1..];
    }
  }

  lemma {:induction false} TotalCounts<K>(chains: seq<seq<Handle<K>>>)
    requires Apart(chains)
    ensures |AllOf(chains)| == Total(chains)
    decreases |chains|
  {
    if chains != [] {
      var rest := chains[1..];
      assert forall i :: 0 <= i < |rest| ==> rest[i] == chains[i + 1];
      TotalCounts(rest);
      MembersCount(chains[0]);
      hide Distinct;
      assert Members(chains[0]) !! AllOf(rest) by {
        forall h | h in AllOf(rest)
          ensures h !in Members(chains[0])
        {
          AllOfMeans(rest, h);
          var i :| 0 <= i < |rest| && h in rest[i];
          assert h in Members(chains[i + 1]);
        }
      }
    }
  }

  lemma ChainsAreApart<K>(hash: K -> nat, chains: seq<seq<Handle<K>>>, members: set<Handle<K>>)
    requires Placed(hash, chains, members) && forall i :: 0 <= i < |chains| ==> Distinct(chains[i])
    ensures Apart(chains)
  {
    hide Distinct;
    forall i, j | 0 <= i < j < |chains|
      ensures Members(chains[i]) !! Members(chains[j])
    {
      ChainsApart(hash, chains, members, j);
    }
  }

  lemma AllOfIsMembers<K>(hash: K -> nat, chains: seq<seq<Handle<K>>>, members: set<Handle<K>>)
    requires Placed(hash, chains, members)
    ensures AllOf(chains) == members
  {
    hide AllOf;
    forall h | h in AllOf(chains)
      ensures h in members
    {
      AllOfMeans(chains, h);
    }
    forall h | h in members
      ensures h in AllOf(chains)
    {
      AllOfMeans(chains, h);
      assert h in chains[Home(hash, |chains|, h)];
    }
  }

  /** The chains of a table hold as many items as the list. */
  lemma TotalIsNumItems<K>(hash: K -> nat, chains: seq<seq<Handle<K>>>, items: seq<Handle<K>>)
    requires Placed(hash, chains, Members(items)) && Distinct(items)
    requires forall i :: 0 <= i < |chains| ==> Distinct(chains[i])
    ensures Total(chains) == |items|
  {
    ChainsAreApart(hash, chains, Members(items));
    TotalCounts(chains);
    MembersCount(items);
    hide *;
    AllOfIsMembers(hash, chains, Members(items));
  }

  /** The chains without what exceeds the ideal length. */
  function Shortened<K>(chains: seq<seq<Handle<K>>>, ideal: nat): (r: seq<seq<Handle<K>>>)
  {
    seq(|chains|, b requires 0 <= b < |chains| => if |chains[b]| <= ideal then chains[b] else chains[b][..ideal])
  }

  /** nonideal_items counts the items that have to go for all chains to have at most the ideal length. */
  lemma {:induction false} ExcessIsSurplus<K>(chains: seq<seq<Handle<K>>>, ideal: nat)
    ensures Excess(chains, ideal) == Total(chains) - Total(Shortened(chains, ideal))
    decreases |chains|
  {
    if chains != [] {
      ExcessIsSurplus(chains[1..], ideal);
      assert Shortened(chains, ideal)[1..] == Shortened(chains[1..], ideal);
    }
  }

  /** The multiplier of a bucket says how many times the ideal length its chain is, if it is longer at all. */
  lemma MultiplierIs<K>(buckets: array<Bucket<K>>, ideal: nat, b: nat)
    requires ideal > 0 && Multiplied(buckets, ideal) && b < buckets.Length
    ensures var count, e := buckets[b].count, buckets[b].expandMult;
            if count > ideal then e * ideal <= count < (e + 1) * ideal else e == 0
  {
    Golomb.DivMod(buckets[b].count, ideal);
    assert (buckets[b].count / ideal + 1) * ideal == buckets[b].count / ideal * ideal + ideal;
  }

  /** Every item stands in the chain that the low bits of its hash value name, and in no other. */
  lemma InOwnChain<K>(t: Table<K>, h: Handle<K>)
    requires t.Linked() && h in t.items
    ensures |t.chains| == t.numBuckets == Golomb.Pow2(t.log2NumBuckets) && h.hashv == t.hash(h.key)
    ensures forall b :: 0 <= b < |t.chains| ==> (h in t.chains[b] <==> b == h.hashv % t.numBuckets)
  {
    assert h in Members(t.items);
    hide Golomb.Pow2, BucketOk;
  }

  // ---------------------------------------------------------------------------
  // HASH_FSCK
  // ---------------------------------------------------------------------------

  /** One chain that can be walked: the check objects unless every back link and the count are right. */
  method CheckChain<K>(bucket: Bucket<K>, ghost c: seq<Handle<K>>) returns (ok: bool, bktCount: nat)
    requires Forward(c) && bucket.hhHead == First(c)
    ensures ok <==> BucketOk(bucket, c)
    ensures ok ==> bktCount == |c|
  {
    bktCount := 0;
    var thh, prev: Handle?<K> := bucket.hhHead, null;
    while thh != null
      invariant bktCount <= |c| && thh == (if bktCount < |c| then c[bktCount] else null)
      invariant prev == if bktCount == 0 then null else c[bktCount - 1]
      invariant bktCount > 0 ==> c[0].hhPrev == null
      invariant forall i :: 0 < i < bktCount ==> c[i].hhPrev == c[i - 1]
      decreases |c| - bktCount
    {
      assert thh == c[bktCount];
      if prev != thh.hhPrev {
        return false, bktCount;
      }
      bktCount := bktCount + 1;
      prev := thh;
      thh := thh.hhNext;
    }
    ok := bucket.count == bktCount;
  }

  lemma {:induction false} TotalNext<K>(chains: seq<seq<Handle<K>>>, i: nat)
    requires i < |chains|
    ensures Total(chains[..i + 1]) == Total(chains[..i]) + |chains[i]|
    decreases i
  {
    var now := chains[..i + 1];
    if i == 0 {
      assert now[1..] == [];
    } else {
      TotalNext(chains[1..], i - 1);
      assert now[1..] == chains[1..][..i];
      assert chains[..i][1..] == chains[1..][..i - 1];
    }
  }

  method CheckBuckets<K>(buckets: array<Bucket<K>>, ghost chains: seq<seq<Handle<K>>>) returns (ok: bool, count: nat)
    requires |chains| == buckets.Length
    requires forall b :: 0 <= b < |chains| ==> Forward(chains[b]) && buckets[b].hhHead == First(chains[b])
    ensures ok <==> forall b :: 0 <= b < |chains| ==> BucketOk(buckets[b], chains[b])
    ensures ok ==> count == Total(chains)
  {
    hide BucketOk, Forward;
    count := 0;
    var bkt := 0;
    while bkt < buckets.Length
      invariant 0 <= bkt <= buckets.Length && count == Total(chains[..bkt])
      invariant forall b :: 0 <= b < bkt ==> BucketOk(buckets[b], chains[b])
    {
      var bktOk, bktCount := CheckChain(buckets[bkt], chains[bkt]);
      if !bktOk {
        return false, count;
      }
      TotalNext(chains, bkt);
      count := count + bktCount;
      bkt := bkt + 1;
    }
    assert chains[..bkt] == chains;
    ok := true;
  }

  /** The application-order list: the check objects unless every back link is right. */
  method CheckList<K>(head: Handle<K>, ghost items: seq<Handle<K>>) returns (ok: bool, count: nat)
    requires Chained(items) && Ended(items) && items != [] && head == items[0]
    ensures ok <==> BackChained(items)
    ensures ok ==> count == |items|
  {
    count := 0;
    var thh: Handle?<K>, prev: Handle?<K> := head, null;
    while thh != null
      invariant count <= |items| && thh == (if count < |items| then items[count] else null)
      invariant prev == if count == 0 then null else items[count - 1]
      invariant count > 0 ==> items[0].prev == null
      invariant forall i :: 0 < i < count ==> items[i].prev == items[i - 1]
      decreases |items| - count
    {
      assert thh == items[count];
      count := count + 1;
      if prev != thh.prev {
        return false, count;
      }
      prev := thh;
      thh := thh.next;
    }
    ok := true;
  }

  /**
   HASH_FSCK on any table whose lists can be walked to their ends: it objects unless all back links, the counts of the
   buckets and the count of items are right.
   */
  method Fsck<K>(t: Table<K>, ghost items: seq<Handle<K>>, ghost chains: seq<seq<Handle<K>>>) returns (ok: bool)
    requires t.head == First(items) && Chained(items) && Ended(items)
    requires items != [] ==>
               && t.buckets != null && |chains| == t.buckets.Length
               && forall b :: 0 <= b < |chains| ==> Forward(chains[b]) && t.buckets[b].hhHead == First(chains[b])
    ensures ok <==>
            items == [] ||
            (&& (forall b :: 0 <= b < |chains| ==> BucketOk(t.buckets[b], chains[b]))
             && Total(chains) == t.numItems == |items| && BackChained(items))
  {
    hide Forward, BucketOk, Total, Chained, Ended, BackChained;
    ok := true;
    if t.head != null {
      var count: nat;
      ok, count := CheckBuckets(t.buckets, chains);
      if !ok || count != t.numItems {
        return false;
      }
      ok, count := CheckList(t.head, items);
      ok := ok && count == t.numItems;
    }
  }

  /** It finds nothing wrong with any table reached by the operations. */
  lemma FsckAccepts<K>(t: Table<K>)
    requires t.Linked()
    ensures t.head == First(t.items) && Chained(t.items) && Ended(t.items)
    ensures t.items != [] ==>
              && t.buckets != null && |t.chains| == t.buckets.Length
              && (forall b :: 0 <= b < |t.chains| ==> BucketOk(t.buckets[b], t.chains[b]))
              && Total(t.chains) == t.numItems == |t.items| && BackChained(t.items)
  {
    if t.items != [] {
      assert forall b :: 0 <= b < |t.chains| ==> BucketOk(t.buckets[b], t.chains[b]);
      TotalIsNumItems(t.hash, t.chains, t.items);
    }
  }
}
