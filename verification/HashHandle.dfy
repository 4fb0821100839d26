/** UT_hash_handle (uthash.h:929-938), standing for the element that contains it. */
module HashHandle {
  import opened Wrappers

  class Handle<K> {
    const key: K
    var hashv: nat
    var prev: Handle?<K>    // application order
    var next: Handle?<K>
    var hhPrev: Handle?<K>  // bucket order
    var hhNext: Handle?<K>

    constructor (k: K)
      ensures key == k && prev == null && next == null && hhPrev == null && hhNext == null
    {
      key := k;
      hashv := 0;
      prev, next, hhPrev, hhNext := null, null, null, null;
    }
  }

  function First<K>(s: seq<Handle<K>>): (h: Handle?<K>)
    ensures h == null <==> s == []
  {
    if s == [] then null else s[0]
  }

  function Final<K>(s: seq<Handle<K>>): (h: Handle?<K>)
    ensures h == null <==> s == []
  {
    if s == [] then null else s[|s| - 1]
  }

  ghost function Maybe<K>(h: Handle?<K>): (s: set<Handle<K>>)
  {
    if h == null then {} else {h}
  }

  /** `next` leads from each handle to its successor. */
  ghost predicate Chained<K>(s: seq<Handle<K>>)
    reads s`next
  {
    forall i :: 0 <= i < |s| - 1 ==> s[i].next == s[i + 1]
  }

  /** `prev` leads back, and is NULL at the first handle. */
  ghost predicate BackChained<K>(s: seq<Handle<K>>)
    reads s`prev
  {
    && (s != [] ==> s[0].prev == null)
    && forall i :: 0 < i < |s| ==> s[i].prev == s[i - 1]
  }

  ghost predicate Ended<K>(s: seq<Handle<K>>)
    reads s`next
  {
    s != [] ==> s[|s| - 1].next == null
  }

  /** `s` is the application-order list: next and prev agree with it, both ends are NULL. */
  ghost predicate IsList<K>(s: seq<Handle<K>>)
    reads s`next, s`prev
  {
    Distinct(s) && Chained(s) && BackChained(s) && Ended(s)
  }
}
