/**
 Properties that relate several operations of the cache: reads agree with each
 other, a write is seen by the next read, Delete undoes the Put of a new key, and
 the sweep physically removes exactly what reads already treat as missing.
 */
module CacheProperties {
  import opened Entries
  import opened LruCache
  import opened ShrinkCache

  /** setConfig checks `high < low` after reading whatever fields the configuration
      has, so a configuration with only one watermark is compared against the default
      of the other: a low of 2 GiB alone panics against the default high of 1 GiB,
      and so does a high below the default low. An empty configuration is accepted. */
  lemma OneSidedConfigChecksAgainstDefault<V>(sizeOf: SizeOf<V>)
    ensures NewCache(sizeOf, Some(Config(Some(2 * DefaultHighSize), None))) == Err(LowAboveHigh)
    ensures NewCache(sizeOf, Some(Config(None, Some(DefaultLowSize - 1)))) == Err(LowAboveHigh)
    ensures var r := NewCache(sizeOf, Some(Config(None, None)));
            r.Ok? && r.value.low == DefaultLowSize && r.value.high == DefaultHighSize
  {
  }

  /** IsExist is the negation of the test Get uses, so the two always agree. */
  lemma ExistAgreesWithGet<V>(c: Cache<V>, key: string, now: int)
    requires Wf(c)
    ensures IsExist(c, key, now) <==> Get(c, key, now).val.Some?
    ensures IsExist(c, key, now) <==> Live(c, key, now)
  {
  }

  /** GetEx returns what Get returns and leaves the same state, with the hit as a flag. */
  lemma GetExAgreesWithGet<V>(c: Cache<V>, key: string, now: int)
    requires Wf(c)
    ensures GetEx(c, key, now).0 == Get(c, key, now)
    ensures GetEx(c, key, now).1 <==> Get(c, key, now).val.Some?
  {
  }

  /** A hit makes the key the most recently used one. */
  lemma GetHitMovesToBack<V>(c: Cache<V>, key: string, now: int)
    requires Wf(c)
    requires Live(c, key, now)
    ensures var es := Get(c, key, now).cache.entries;
            |es| == |c.entries| && es[|es| - 1].key == key
  {
    assert |Matching(c.entries, KeyIs(key))| == 1 by {
      MatchingOneKey(c, key);
    }
    RemoveMatchingPlusMatchingLength(c.entries, KeyIs(key));
  }

  /** In a well-formed cache exactly one entry has a stored key. */
  lemma MatchingOneKey<V>(c: Cache<V>, key: string)
    requires Wf(c)
    requires key in c.index
    ensures Matching(c.entries, KeyIs(key)) == [c.index[key]]
  {
    var i := Find(c.entries, key);
    assert i < |c.entries| && c.entries[i] == c.index[key] by {
      assert c.index[key] in c.entries;
    }
    MatchingAt(c.entries, i);
  }

  /** A value written at `now` is read back at `now + d` exactly while d does not
      exceed the stored ttl (DefaultExpire for a negative one). Because the test
      compares seconds with a Duration, d counts seconds against nanoseconds. */
  lemma GetAfterPut<V>(c: Cache<V>, key: string, val: V, expired: int, now: int, d: int)
    requires Wf(c)
    ensures var ttl := if expired < 0 then DefaultExpire else expired;
            Get(Put(c, key, val, expired, now).cache, key, now + d).val == if d <= ttl then Some(val) else None
  {
    var p := Put(c, key, val, expired, now).cache;
    assert p.index[key].lastAccess == now;
  }

  /** The consequence of the mixed units: an entry put with a five-second ttl is
      still returned six seconds later (it lives for five billion seconds). */
  lemma FiveSecondTtlStillLiveAfterSixSeconds<V>(c: Cache<V>, key: string, val: V, now: int)
    requires Wf(c)
    ensures Get(Put(c, key, val, 5 * Second, now).cache, key, now + 6).val == Some(val)
  {
    GetAfterPut(c, key, val, 5 * Second, now, 6);
  }

  /** Delete undoes the Put of a key that was not stored: same list, index and size. */
  lemma DeleteUndoesPutOfNewKey<V>(c: Cache<V>, key: string, val: V, expired: int, now: int)
    requires Wf(c)
    requires key !in c.index
    ensures Delete(Put(c, key, val, expired, now).cache, key).cache == c
  {
    var itm := Put(c, key, val, expired, now).cache.index[key];
    PutNewIsPushBack(c, itm);
    assert Put(c, key, val, expired, now).cache == PushBack(c, itm);
    EvictUndoesPushBack(c, itm);
  }

  /** After ClearAll every key misses and Delete reports it missing. */
  lemma ClearAllForgetsEverything<V>(c: Cache<V>, key: string, now: int)
    requires Wf(c)
    ensures Get(ClearAll(c), key, now).val == None
    ensures !IsExist(ClearAll(c), key, now)
    ensures Delete(ClearAll(c), key).err == Some(KeyNotExist)
    ensures ClearAll(c).entries == [] && ClearAll(c).curSize == 0
  {
  }

  /** DelayDelete on a live key restarts its lifetime with the new delay: it exists
      at `now + d` exactly when d <= delay. A negative delay therefore makes it
      expired at once. */
  lemma DelayDeleteRestartsLifetime<V>(c: Cache<V>, key: string, delay: int, now: int, d: int)
    requires Wf(c)
    requires Live(c, key, now)
    ensures IsExist(DelayDelete(c, key, delay, now).cache, key, now + d) <==> d <= delay
  {
  }

  /** After a sweep at `now`, a key is still stored exactly when IsExist held for it
      before: the sweep physically removes what reads already treated as missing. */
  lemma SweepKeepsExactlyExisting<V>(c: Cache<V>, now: int, snapshot: seq<string>)
    requires Wf(c)
    requires forall k :: k in c.index ==> k in snapshot
    ensures forall k :: k in Sweep(c, now, snapshot).index <==> IsExist(c, k, now)
  {
  }
}
