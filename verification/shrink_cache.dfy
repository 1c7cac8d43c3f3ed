/**
 The two bodies of the background goroutine shrinkCache, each taken as one
 sequential operation on the cache state: the LRU shrink run when Put signals
 that curCacheSize reached `high`, and the expiry sweep run on every timer tick.
 */
module ShrinkCache {
  import opened Entries
  import opened LruCache

  /** The size the cache has when only the entries from position `j` on are left
      exceeds `low`: the loop condition of the shrink at that point. */
  ghost predicate OverLowFrom<V>(c: Cache<V>, j: nat)
    requires j <= |c.entries|
  {
    Sum(c.sizeOf, c.entries[j..]) > c.low
  }

  /** The shrink loop `for curCacheSize > low`, one iteration per call: remove the
      front (least recently used) element, its key and its size. With a negative
      `low` the list runs empty while the loop condition still holds, and
      list.Remove(nil) panics; that is Err(NilElement). Otherwise the loop stops at
      curSize <= low. Which entries it removes is ShrinkEvictsFront. */
  function Shrink<V>(c: Cache<V>): (r: Result<Cache<V>>)
    requires Wf(c)
    ensures r.Ok? <==> c.low >= 0
    ensures r.Err? ==> r.error == NilElement
    ensures r.Ok? ==> Wf(r.value) && r.value.curSize <= c.low
    ensures r.Ok? ==> r.value.low == c.low && r.value.high == c.high && r.value.sizeOf == c.sizeOf
    ensures c.curSize <= c.low ==> r == Ok(c)
    decreases |c.entries|
  {
    if c.curSize <= c.low then Ok(c)
    else if c.entries == [] then
      // valueList.Front() is nil and valueList.Remove(nil) panics
      Err(NilElement)
    else Shrink(PopFront(c))
  }

  /** `rest` is what popping the front of c's list while the size exceeded `low`
      leaves: a suffix of the list, every position before it removed while the size
      of the list from that position on was still above `low`. */
  ghost predicate EvictedFront<V>(c: Cache<V>, rest: Cache<V>)
  {
    && |rest.entries| <= |c.entries|
    && rest.entries == c.entries[|c.entries| - |rest.entries|..]
    && (forall j :: 0 <= j < |c.entries| - |rest.entries| ==> OverLowFrom(c, j))
  }

  /** The shrink evicts from the front only: what it leaves is a suffix of the list,
      and each removed position was removed while the size of the list from that
      position on still exceeded `low`. */
  lemma {:induction false} ShrinkEvictsFront<V>(c: Cache<V>)
    requires Wf(c)
    ensures Shrink(c).Ok? ==> EvictedFront(c, Shrink(c).value)
    decreases |c.entries|
  {
    if c.curSize <= c.low {
      assert c.entries[0..] == c.entries;
    } else if c.entries != [] {
      var p := PopFront(c);
      ShrinkEvictsFront(p);
      if Shrink(p).Ok? {
        ShrinkStep(c, Shrink(p).value);
      }
    }
  }

  /** One iteration of the shrink loop: the loop condition held at position 0, so
      what the rest of the loop leaves of the list after the front was also reached
      from the whole list under the loop condition. */
  lemma ShrinkStep<V>(c: Cache<V>, rest: Cache<V>)
    requires Wf(c)
    requires c.entries != [] && c.curSize > c.low
    requires EvictedFront(PopFront(c), rest)
    ensures EvictedFront(c, rest)
  {
    var p := PopFront(c);
    var n := |rest.entries|;
    assert p.entries == c.entries[1..];
    forall j | 0 <= j < |c.entries| - n
      ensures OverLowFrom(c, j)
    {
      if j == 0 {
        assert c.entries[0..] == c.entries;
      } else {
        assert OverLowFrom(p, j - 1);
        assert p.entries[j - 1..] == c.entries[j..];
      }
    }
  }

  /** The expiry sweep over the snapshot of keys it takes: every entry whose expiry
      test holds at `now` is removed, the others stay in their order, and curSize
      drops by exactly the removed sizes. */
  function Sweep<V>(c: Cache<V>, now: int, snapshot: seq<string>): (r: Cache<V>)
    requires Wf(c)
    requires forall k :: k in c.index ==> k in snapshot
    ensures Wf(r)
    ensures r.entries == RemoveMatching(c.entries, ExpiredAt(now))
    ensures forall k :: k in r.index <==> k in c.index && !Expired(c.index[k], now)
    ensures forall e :: e in r.entries ==> !Expired(e, now)
    ensures r.curSize == c.curSize - Sum(c.sizeOf, Matching(c.entries, ExpiredAt(now)))
    ensures r.low == c.low && r.high == c.high && r.sizeOf == c.sizeOf
  {
    ScanKeysRemovesMatching(c, snapshot, ExpiredAt(now));
    RemoveMatchingMembers(c.entries, ExpiredAt(now));
    ScanKeys(c, snapshot, ExpiredAt(now))
  }
}
