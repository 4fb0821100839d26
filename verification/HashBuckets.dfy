/**
 The bucket side of uthash (uthash.h:198-201, 597-711): chains linked through hh_next and hh_prev, counts,
 and the doubling of the bucket array.
 */
module HashBuckets {
  import opened Wrappers
  import opened HashHandle
  import Golomb

  // ---------------------------------------------------------------------------
  // Powers of two: the mask and shift tricks
  // ---------------------------------------------------------------------------

  /** Bitwise and of two unsigned numbers. */
  function And(a: nat, b: nat): (r: nat)
    decreases a
  {
    if a == 0 || b == 0 then 0
    else 2 * And(a / 2, b / 2) + (if a % 2 == 1 && b % 2 == 1 then 1 else 0)
  }

  lemma HalfOfRemainder(x: nat, m: nat)
    requires m > 0
    ensures 2 * ((x / 2) % m) + x % 2 == x % (2 * m)
  {
    var h := x / 2;
    var q, r := h / m, h % m;
    assert h == q * m + r;
    assert x == q * (2 * m) + (2 * r + x % 2);
    Golomb.QuotientIs(x, 2 * m, q, 2 * r + x % 2);
  }

  lemma AndOdd(x: nat, m: nat)
    requires m > 0
    ensures And(x, 2 * m - 1) == 2 * And(x / 2, m - 1) + x % 2
  {
    assert (2 * m - 1) / 2 == m - 1 && (2 * m - 1) % 2 == 1;
    if x == 0 {
      assert And(0, m - 1) == 0;
    }
  }

  /** Masking with a power of two less one is the remainder: HASH_TO_BKT. */
  lemma {:induction false} AndMask(x: nat, k: nat)
    ensures And(x, Golomb.Pow2(k) - 1) == x % Golomb.Pow2(k)
    decreases k
  {
    hide And;
    if k == 0 {
      AndZero(x);
    } else {
      AndMask(x / 2, k - 1);
      AndMaskDouble(x, Golomb.Pow2(k - 1));
    }
  }

  lemma AndZero(x: nat)
    ensures And(x, 0) == x % 1
  {
  }

  lemma AndMaskDouble(x: nat, m: nat)
    requires m > 0 && And(x / 2, m - 1) == (x / 2) % m
    ensures And(x, 2 * m - 1) == x % (2 * m)
  {
    AndOdd(x, m);
    HalfOfRemainder(x, m);
    hide *;
  }

  /** `(n >> lb) + ((n & (b - 1)) ? 1 : 0)` for `b` the power of two with logarithm `lb`. */
  function IdealChain(n: nat, lb: nat): (r: int)
  {
    n / Golomb.Pow2(lb) + (if And(n, Golomb.Pow2(lb) - 1) != 0 then 1 else 0)
  }

  /** The quotient rounded up: `r` is the least number with `n <= r * b`. */
  predicate IsCeiling(r: int, n: nat, b: int)
  {
    n <= r * b && forall q: nat :: n <= q * b ==> r <= q
  }

  lemma CeilingBy(r: int, n: nat, b: int)
    requires b > 0 && (r - 1) * b < n <= r * b
    ensures IsCeiling(r, n, b)
  {
    forall q: nat | n <= q * b
      ensures r <= q
    {
      if q < r {
        Golomb.Nonnegative(r - 1 - q, b);
      }
    }
  }

  lemma IdealChainIsCeiling(n: nat, lb: nat)
    ensures IsCeiling(IdealChain(n, lb), n, Golomb.Pow2(lb))
    ensures n > 0 ==> IdealChain(n, lb) > 0
  {
    hide Golomb.Pow2;
    var b := Golomb.Pow2(lb);
    var q := n / b;
    AndMask(n, lb);
    Golomb.DivMod(n, b);
    Ceiling(n, b, q, n % b);
  }

  lemma Ceiling(n: nat, b: int, q: int, m: int)
    requires b > 0 && n == q * b + m && 0 <= m < b
    ensures var r := q + (if m != 0 then 1 else 0); IsCeiling(r, n, b) && (n > 0 ==> r > 0)
  {
    var r := q + (if m != 0 then 1 else 0);
    assert (q + 1) * b == q * b + b && (q - 1) * b == q * b - b;
    CeilingBy(r, n, b);
    if r <= 0 {
      Golomb.Nonnegative(-r, b);
    }
  }

  // ---------------------------------------------------------------------------
  // Chains
  // ---------------------------------------------------------------------------

  /** UT_hash_bucket. */
  datatype Bucket<K> = Bucket(hhHead: Handle?<K>, count: nat, expandMult: nat)

  /** hh_next leads along the handles and ends. */
  ghost predicate Forward<K>(c: seq<Handle<K>>)
    reads c`hhNext
  {
    && Distinct(c)
    && (forall i :: 0 <= i < |c| - 1 ==> c[i].hhNext == c[i + 1])
    && (c != [] ==> c[|c| - 1].hhNext == null)
  }

  /** The chain of a bucket: linked both ways. */
  ghost predicate IsChain<K>(c: seq<Handle<K>>)
    reads c`hhNext, c`hhPrev
  {
    && Forward(c)
    && (c != [] ==> c[0].hhPrev == null)
    && (forall i :: 0 < i < |c| ==> c[i].hhPrev == c[i - 1])
  }

  function Without<T>(s: seq<T>, k: nat): (r: seq<T>)
    requires k < |s|
  {
    s[..k] + s[k + 1..]
  }

  /** HASH_ADD_TO_BKT, the links. */
  method PushChain<K>(h: Handle<K>, head: Handle?<K>, ghost c: seq<Handle<K>>)
    requires IsChain(c) && h !in c && head == First(c)
    modifies h`hhNext, h`hhPrev, Maybe(head)`hhPrev
    ensures IsChain([h] + c)
  {
    h.hhNext := head;
    h.hhPrev := null;
    if head != null {
      head.hhPrev := h;
    }
    ghost var d := [h] + c;
    assert forall i :: 0 < i < |d| ==> d[i] == c[i - 1];
  }

  /** HASH_DEL_IN_BKT, the links. */
  method UnlinkChain<K>(h: Handle<K>, head: Handle<K>, ghost c: seq<Handle<K>>, ghost k: nat)
      returns (head': Handle?<K>)
    requires IsChain(c) && k < |c| && c[k] == h && head == c[0]
    modifies Maybe(h.hhPrev)`hhNext, Maybe(h.hhNext)`hhPrev
    ensures IsChain(Without(c, k)) && head' == First(Without(c, k))
  {
    ghost var before := if k == 0 then null else c[k - 1];
    ghost var after := if k + 1 == |c| then null else c[k + 1];
    assert h.hhPrev == before && h.hhNext == after;
    head' := head;
    if head' == h {
      head' := h.hhNext;
    }
    if h.hhPrev != null {
      h.hhPrev.hhNext := h.hhNext;
    }
    if h.hhNext != null {
      h.hhNext.hhPrev := h.hhPrev;
    }
    ghost var d := Without(c, k);
    assert forall i :: 0 <= i < k ==> d[i] == c[i];
    assert forall i :: k <= i < |d| ==> d[i] == c[i + 1];
    assert forall i :: 0 <= i < |c| && i != k - 1 ==> c[i].hhNext == old(c[i].hhNext);
    assert forall i :: 0 <= i < |c| && i != k + 1 ==> c[i].hhPrev == old(c[i].hhPrev);
  }

  // ---------------------------------------------------------------------------
  // The bucket array
  // ---------------------------------------------------------------------------

  /** The bucket an element belongs in: its hash value modulo the number of buckets. */
  function Home<K>(hash: K -> nat, n: nat, h: Handle<K>): (b: nat)
    requires n > 0
    ensures b < n
  {
    hash(h.key) % n
  }

  /** Every member is in the chain of its bucket, and the chains hold nothing else. */
  ghost predicate Placed<K>(hash: K -> nat, chains: seq<seq<Handle<K>>>, members: set<Handle<K>>)
  {
    && |chains| > 0
    && (forall b, h :: 0 <= b < |chains| && h in chains[b] ==> h in members && Home(hash, |chains|, h) == b)
    && (forall h :: h in members ==> h in chains[Home(hash, |chains|, h)])
  }

  ghost predicate BucketOk<K>(bucket: Bucket<K>, chain: seq<Handle<K>>)
    reads chain`hhNext, chain`hhPrev
  {
    IsChain(chain) && bucket.hhHead == First(chain) && bucket.count == |chain|
  }

  ghost predicate TableOk<K>(hash: K -> nat, buckets: array<Bucket<K>>, chains: seq<seq<Handle<K>>>,
                             members: set<Handle<K>>)
    reads buckets, members`hhNext, members`hhPrev
  {
    && |chains| == buckets.Length && Placed(hash, chains, members)
    && forall b :: 0 <= b < |chains| ==> BucketOk(buckets[b], chains[b])
  }

  /** The hash values stored in the handles are those of their keys. */
  ghost predicate Hashed<K>(hash: K -> nat, members: set<Handle<K>>)
    reads members`hashv
  {
    forall h :: h in members ==> h.hashv == hash(h.key)
  }

  lemma PlaceOne<K>(hash: K -> nat, chains: seq<seq<Handle<K>>>, members: set<Handle<K>>, h: Handle<K>)
    requires Placed(hash, chains, members) && h !in members
    ensures var b := Home(hash, |chains|, h);
            h !in chains[b] && Placed(hash, chains[b := [h] + chains[b]], members + {h})
  {
    var b := Home(hash, |chains|, h);
    var now := chains[b := [h] + chains[b]];
    hide Home;
    forall i, g | 0 <= i < |now| && g in now[i]
      ensures g in members + {h} && Home(hash, |now|, g) == i
    {
      if g != h {
        assert g in chains[i];
      }
    }
  }

  lemma RemoveOne<K>(hash: K -> nat, chains: seq<seq<Handle<K>>>, members: set<Handle<K>>, h: Handle<K>, k: nat)
    requires Placed(hash, chains, members) && h in members
    requires var b := Home(hash, |chains|, h); k < |chains[b]| && chains[b][k] == h && Distinct(chains[b])
    ensures var b := Home(hash, |chains|, h);
            Placed(hash, chains[b := Without(chains[b], k)], members - {h})
  {
    var b := Home(hash, |chains|, h);
    var now := chains[b := Without(chains[b], k)];
    WithoutMembers(chains[b], k);
    hide Home, Without;
    forall i, g | 0 <= i < |now| && g in now[i]
      ensures g in members - {h} && Home(hash, |now|, g) == i
    {
      assert g in chains[i];
    }
  }

  lemma WithoutMembers<K>(c: seq<Handle<K>>, k: nat)
    requires k < |c| && Distinct(c)
    ensures forall g :: g in Without(c, k) <==> g in c && g != c[k]
    ensures Distinct(Without(c, k))
  {
    var d := Without(c, k);
    assert forall i :: 0 <= i < k ==> d[i] == c[i];
    assert forall i :: k <= i < |d| ==> d[i] == c[i + 1];
    forall g | g in c && g != c[k]
      ensures g in d
    {
      var i :| 0 <= i < |c| && c[i] == g;
      assert d[if i < k then i else i - 1] == g;
    }
  }

  /** Neither a new item nor the head of its bucket is in any other chain. */
  lemma OthersApart<K>(hash: K -> nat, chains: seq<seq<Handle<K>>>, members: set<Handle<K>>, h: Handle<K>, b: nat,
                       head: Handle?<K>)
    requires Placed(hash, chains, members) && h !in members && b < |chains| && head == First(chains[b])
    ensures forall i, g :: 0 <= i < |chains| && i != b && g in chains[i] ==> g != h && g !in Maybe(head)
  {
    ChainsApart(hash, chains, members, b);
    hide Home;
    forall i, g | 0 <= i < |chains| && i != b && g in chains[i]
      ensures g != h && g !in Maybe(head)
    {
      assert g in members && g !in chains[b];
    }
  }

  /** HASH_ADD_TO_BKT without the expansion. */
  method PutInBucket<K>(hash: K -> nat, buckets: array<Bucket<K>>, h: Handle<K>, bkt: nat,
                        ghost chains: seq<seq<Handle<K>>>, ghost members: set<Handle<K>>)
    requires TableOk(hash, buckets, chains, members) && h !in members && bkt == Home(hash, buckets.Length, h)
    modifies buckets, h`hhNext, h`hhPrev, Maybe(buckets[bkt].hhHead)`hhPrev
    ensures TableOk(hash, buckets, chains[bkt := [h] + chains[bkt]], members + {h})
    ensures forall b :: 0 <= b < buckets.Length ==> buckets[b].expandMult == old(buckets[b].expandMult)
  {
    hide IsChain, Home;
    PlaceOne(hash, chains, members, h);
    ghost var now := chains[bkt := [h] + chains[bkt]];
    assert BucketOk(buckets[bkt], chains[bkt]);
    OthersApart(hash, chains, members, h, bkt, buckets[bkt].hhHead);
    PushChain(h, buckets[bkt].hhHead, chains[bkt]);
    buckets[bkt] := buckets[bkt].(hhHead := h, count := buckets[bkt].count + 1);
    forall b | 0 <= b < |now| && b != bkt
      ensures BucketOk(buckets[b], now[b])
    {
      assert old(BucketOk(buckets[b], chains[b]));
    }
  }

  /** HASH_DEL_IN_BKT. */
  method TakeFromBucket<K>(hash: K -> nat, buckets: array<Bucket<K>>, h: Handle<K>, bkt: nat,
                           ghost chains: seq<seq<Handle<K>>>, ghost members: set<Handle<K>>, ghost k: nat)
    requires TableOk(hash, buckets, chains, members) && h in members && bkt == Home(hash, buckets.Length, h)
    requires k < |chains[bkt]| && chains[bkt][k] == h
    modifies buckets, Maybe(h.hhPrev)`hhNext, Maybe(h.hhNext)`hhPrev
    ensures TableOk(hash, buckets, chains[bkt := Without(chains[bkt], k)], members - {h})
    ensures forall b :: 0 <= b < buckets.Length ==> buckets[b].expandMult == old(buckets[b].expandMult)
  {
    assert BucketOk(buckets[bkt], chains[bkt]);
    Neighbours(chains[bkt], k);
    RemoveOne(hash, chains, members, h, k);
    ChainsApart(hash, chains, members, bkt);
    hide IsChain, Home, Placed, Without;
    ghost var c := Without(chains[bkt], k);
    ghost var now := chains[bkt := c];
    assert |c| == |chains[bkt]| - 1 by {
      WithoutLength(chains[bkt], k);
    }
    assert forall b, g :: 0 <= b < |chains| && b != bkt && g in chains[b] ==> g !in Maybe(h.hhPrev) + Maybe(h.hhNext);
    var head := UnlinkChain(h, buckets[bkt].hhHead, chains[bkt], k);
    buckets[bkt] := buckets[bkt].(hhHead := head, count := buckets[bkt].count - 1);
    forall b | 0 <= b < |now| && b != bkt
      ensures BucketOk(buckets[b], now[b])
    {
      assert old(BucketOk(buckets[b], chains[b]));
    }
  }

  lemma WithoutLength<T>(s: seq<T>, k: nat)
    requires k < |s|
    ensures |Without(s, k)| == |s| - 1
  {
  }

  /** The neighbours of an item are in its chain. */
  lemma Neighbours<K>(c: seq<Handle<K>>, k: nat)
    requires IsChain(c) && k < |c|
    ensures Maybe(c[k].hhPrev) + Maybe(c[k].hhNext) <= Members(c)
  {
    assert k > 0 ==> c[k].hhPrev == c[k - 1];
    assert k + 1 < |c| ==> c[k].hhNext == c[k + 1];
  }

  lemma ChainsApart<K>(hash: K -> nat, chains: seq<seq<Handle<K>>>, members: set<Handle<K>>, b: nat)
    requires Placed(hash, chains, members) && b < |chains|
    ensures forall i, h :: 0 <= i < |chains| && i != b && h in chains[i] ==> h !in chains[b]
  {
    hide Home;
    forall i, h | 0 <= i < |chains| && i != b && h in chains[i]
      ensures h !in chains[b]
    {
      assert Home(hash, |chains|, h) == i;
    }
  }

  // ---------------------------------------------------------------------------
  // Doubling the number of buckets
  // ---------------------------------------------------------------------------

  /** How many items sit in a chain beyond position `ideal`. */
  function Excess<K>(chains: seq<seq<Handle<K>>>, ideal: nat): (n: nat)
    decreases |chains|
  {
    if chains == [] then 0
    else (if |chains[0]| > ideal then |chains[0]| - ideal else 0) + Excess(chains[1..], ideal)
  }

  lemma {:induction false} ExcessPut<K>(chains: seq<seq<Handle<K>>>, ideal: nat, b: nat, h: Handle<K>)
    requires b < |chains|
    ensures Excess(chains[b := [h] + chains[b]], ideal)
         == Excess(chains, ideal) + if |chains[b]| + 1 > ideal then 1 else 0
    decreases |chains|
  {
    var now := chains[b := [h] + chains[b]];
    if b == 0 {
      assert now[1..] == chains[1..];
    } else {
      assert now[1..] == chains[1..][b - 1 := [h] + chains[b]];
      ExcessPut(chains[1..], ideal, b - 1, h);
    }
  }

  lemma {:induction false} ExcessEmpty<K>(chains: seq<seq<Handle<K>>>, ideal: nat)
    requires forall b :: 0 <= b < |chains| ==> chains[b] == []
    ensures Excess(chains, ideal) == 0
    decreases |chains|
  {
    if chains != [] {
      ExcessEmpty(chains[1..], ideal);
    }
  }

  /** expand_mult of a bucket that was filled while the table was expanded. */
  ghost predicate Multiplied<K>(buckets: array<Bucket<K>>, ideal: nat)
    requires ideal > 0
    reads buckets
  {
    forall b :: 0 <= b < buckets.Length ==>
      buckets[b].expandMult == if buckets[b].count > ideal then buckets[b].count / ideal else 0
  }

  /** One item moves to its new bucket; the result says whether it is beyond the ideal length. */
  method MoveItem<K>(hash: K -> nat, buckets: array<Bucket<K>>, h: Handle<K>, ideal: nat, ghost lb: nat,
                     ghost chains: seq<seq<Handle<K>>>, ghost members: set<Handle<K>>)
      returns (over: nat, ghost chains': seq<seq<Handle<K>>>)
    requires TableOk(hash, buckets, chains, members) && h !in members && h.hashv == hash(h.key)
    requires ideal > 0 && Multiplied(buckets, ideal) && buckets.Length == Golomb.Pow2(lb)
    modifies buckets, h`hhNext, h`hhPrev, members`hhPrev
    ensures TableOk(hash, buckets, chains', members + {h}) && Multiplied(buckets, ideal)
    ensures |chains'| == |chains| && Excess(chains', ideal) == Excess(chains, ideal) + over
  {
    hide IsChain, Placed, And, Golomb.Pow2, Distinct;
    AndMask(h.hashv, lb);
    var bkt := And(h.hashv, buckets.Length - 1);
    HeadIsMember(hash, buckets, chains, members, bkt);
    ExcessPut(chains, ideal, bkt, h);
    PutInBucket(hash, buckets, h, bkt, chains, members);
    chains' := chains[bkt := [h] + chains[bkt]];
    assert BucketOk(buckets[bkt], chains'[bkt]);
    over := 0;
    if buckets[bkt].count > ideal {
      over := 1;
      buckets[bkt] := buckets[bkt].(expandMult := buckets[bkt].count / ideal);
    }
  }

  lemma HeadIsMember<K>(hash: K -> nat, buckets: array<Bucket<K>>, chains: seq<seq<Handle<K>>>,
                        members: set<Handle<K>>, b: nat)
    requires TableOk(hash, buckets, chains, members) && b < buckets.Length
    ensures Maybe(buckets[b].hhHead) <= members
  {
    assert BucketOk(buckets[b], chains[b]);
  }

  /** What is left of an old chain, apart from the items already moved. */
  ghost predicate Waiting<K>(rest: seq<Handle<K>>, moved: set<Handle<K>>)
    reads rest`hhNext
  {
    Forward(rest) && forall h :: h in rest ==> h !in moved
  }

  lemma WaitingTail<K>(rest: seq<Handle<K>>, moved: set<Handle<K>>)
    requires Waiting(rest, moved) && rest != []
    ensures Waiting(rest[1..], moved + {rest[0]}) && rest[0].hhNext == First(rest[1..])
  {
    var t := rest[1..];
    assert forall i :: 0 <= i < |t| ==> t[i] == rest[i + 1];
  }

  /** One round of the inner loop: the next item is remembered, then this one moves. */
  method MoveFirst<K>(hash: K -> nat, buckets: array<Bucket<K>>, thh: Handle<K>, ideal: nat, ghost lb: nat,
                      ghost rest: seq<Handle<K>>,
                      ghost chains: seq<seq<Handle<K>>>, ghost moved: set<Handle<K>>)
      returns (hhNxt: Handle?<K>, over: nat, ghost chains': seq<seq<Handle<K>>>)
    requires TableOk(hash, buckets, chains, moved) && Waiting(rest, moved) && rest != [] && thh == rest[0]
    requires ideal > 0 && Multiplied(buckets, ideal) && buckets.Length == Golomb.Pow2(lb) && thh.hashv == hash(thh.key)
    modifies buckets, thh`hhNext, thh`hhPrev, moved`hhPrev
    ensures TableOk(hash, buckets, chains', moved + {thh}) && Multiplied(buckets, ideal)
    ensures Waiting(rest[1..], moved + {thh}) && hhNxt == First(rest[1..])
    ensures |chains'| == |chains| && Excess(chains', ideal) == Excess(chains, ideal) + over
  {
    hide TableOk, Multiplied, Golomb.Pow2, Excess, Forward;
    WaitingTail(rest, moved);
    hhNxt := thh.hhNext;
    over, chains' := MoveItem(hash, buckets, thh, ideal, lb, chains, moved);
  }

  /** The items of one old chain, in order, move to their new buckets. */
  method MoveChain<K>(hash: K -> nat, buckets: array<Bucket<K>>, first: Handle?<K>, ideal: nat, ghost lb: nat,
                      ghost c: seq<Handle<K>>,
                      ghost chains: seq<seq<Handle<K>>>, ghost members: set<Handle<K>>)
      returns (over: nat, ghost chains': seq<seq<Handle<K>>>)
    requires TableOk(hash, buckets, chains, members) && Waiting(c, members) && first == First(c)
    requires Hashed(hash, Members(c))
    requires ideal > 0 && Multiplied(buckets, ideal) && buckets.Length == Golomb.Pow2(lb)
    modifies buckets, Members(c)`hhNext, (Members(c) + members)`hhPrev
    ensures TableOk(hash, buckets, chains', members + Members(c)) && Multiplied(buckets, ideal)
    ensures |chains'| == |chains| && Excess(chains', ideal) == Excess(chains, ideal) + over
  {
    hide TableOk, Multiplied, Golomb.Pow2, Excess, Waiting;
    over, chains' := 0, chains;
    var thh := first;
    ghost var rest, moved := c, members;
    while thh != null
      invariant thh == First(rest) && Waiting(rest, moved) && Hashed(hash, Members(c))
      invariant Members(rest) <= Members(c) && moved + Members(rest) == members + Members(c)
      invariant TableOk(hash, buckets, chains', moved) && Multiplied(buckets, ideal)
      invariant |chains'| == |chains| && Excess(chains', ideal) == Excess(chains, ideal) + over
      decreases |rest|
    {
      MembersTail(rest);
      var one: nat;
      ghost var h: Handle<K> := thh;
      thh, one, chains' := MoveFirst(hash, buckets, thh, ideal, lb, rest, chains', moved);
      rest, moved := rest[1..], moved + {h};
      over := over + one;
    }
    assert Members(rest) == {};
    assert moved == members + Members(c);
  }

  lemma MembersTail<K>(c: seq<Handle<K>>)
    requires c != []
    ensures Members(c) == {c[0]} + Members(c[1..])
  {
    assert c == [c[0]] + c[1..];
  }

  /** The members whose old bucket comes before bucket `i`. */
  ghost function Moved<K>(hash: K -> nat, n: nat, members: set<Handle<K>>, i: nat): (s: set<Handle<K>>)
    requires n > 0
  {
    set h | h in members && Home(hash, n, h) < i
  }

  lemma MovedNext<K>(hash: K -> nat, chains: seq<seq<Handle<K>>>, members: set<Handle<K>>, i: nat)
    requires Placed(hash, chains, members) && i < |chains|
    ensures var n := |chains|;
            && Moved(hash, n, members, i + 1) == Moved(hash, n, members, i) + Members(chains[i])
            && Members(chains[i]) !! Moved(hash, n, members, i)
            && Members(chains[i]) <= members && Moved(hash, n, members, i) <= members
            && forall j, h :: i < j < n && h in chains[j] ==> h in members && h !in Moved(hash, n, members, i + 1)
  {
    hide Home;
  }

  lemma ChainWaits<K>(hash: K -> nat, chains: seq<seq<Handle<K>>>, members: set<Handle<K>>, i: nat, bucket: Bucket<K>)
    requires Placed(hash, chains, members) && i < |chains| && BucketOk(bucket, chains[i])
    ensures Waiting(chains[i], Moved(hash, |chains|, members, i)) && bucket.hhHead == First(chains[i])
  {
    hide Home;
    MovedNext(hash, chains, members, i);
  }

  lemma MovedAll<K>(hash: K -> nat, n: nat, members: set<Handle<K>>)
    requires n > 0
    ensures Moved(hash, n, members, 0) == {} && Moved(hash, n, members, n) == members
  {
  }

  /** A fresh array of empty buckets. */
  method NewBuckets<K>(hash: K -> nat, n: nat) returns (buckets: array<Bucket<K>>, ghost chains: seq<seq<Handle<K>>>)
    requires n > 0
    ensures fresh(buckets) && buckets.Length == |chains| == n
    ensures TableOk(hash, buckets, chains, {})
    ensures forall ideal: nat :: ideal > 0 ==> Multiplied(buckets, ideal) && Excess(chains, ideal) == 0
  {
    buckets := new Bucket<K>[n](_ => Bucket(null, 0, 0));
    chains := seq(n, _ => []);
    forall ideal: nat
      ensures Excess(chains, ideal) == 0
    {
      ExcessEmpty(chains, ideal);
    }
  }

  /** HASH_EXPAND_BUCKETS, the redistribution: every item reaches its bucket among twice as many. */
  method Redistribute<K>(hash: K -> nat, buckets: array<Bucket<K>>, ideal: nat, ghost lb: nat,
                         ghost chains: seq<seq<Handle<K>>>, ghost members: set<Handle<K>>)
      returns (newBuckets: array<Bucket<K>>, nonideal: nat, ghost newChains: seq<seq<Handle<K>>>)
    requires TableOk(hash, buckets, chains, members) && Hashed(hash, members)
    requires ideal > 0 && 2 * buckets.Length == Golomb.Pow2(lb)
    modifies members`hhNext, members`hhPrev
    ensures fresh(newBuckets) && newBuckets.Length == 2 * buckets.Length
    ensures TableOk(hash, newBuckets, newChains, members) && Multiplied(newBuckets, ideal)
    ensures nonideal == Excess(newChains, ideal)
  {
    hide IsChain, Placed, Golomb.Pow2, Multiplied, Excess, Home, Moved, Members;
    var n := buckets.Length;
    newBuckets, newChains := NewBuckets(hash, 2 * n);
    nonideal := 0;
    MovedAll(hash, n, members);
    var i := 0;
    while i < n
      invariant 0 <= i <= n
      invariant forall j :: i <= j < n ==> BucketOk(buckets[j], chains[j])
      invariant TableOk(hash, newBuckets, newChains, Moved(hash, n, members, i)) && Multiplied(newBuckets, ideal)
      invariant |newChains| == 2 * n && nonideal == Excess(newChains, ideal)
      modifies newBuckets, members`hhNext, members`hhPrev
    {
      MovedNext(hash, chains, members, i);
      ChainWaits(hash, chains, members, i, buckets[i]);
      var over: nat;
      over, newChains := MoveChain(hash, newBuckets, buckets[i].hhHead, ideal, lb, chains[i], newChains,
                                   Moved(hash, n, members, i));
      nonideal := nonideal + over;
      i := i + 1;
    }
  }
}
