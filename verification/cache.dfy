/**
 The cache engine of cache.go: the recency list, the key index and the running
 size total, and the public operations on them. Every operation runs under the
 cache-wide mutex in the source, so each is one atomic transition here, with the
 clock passed in as `now` (Unix seconds).
 */
module LruCache {
  import opened Entries

  datatype Option<T> = None | Some(value: T)

  datatype Error =
    | KeyNotExist    // the error Delete and DelayDelete return
    | LowAboveHigh   // setConfig panics: "the low must be less than high..."
    | NilElement     // the shrink loop calls list.Remove(nil) and the program panics

  datatype Result<T> = Ok(value: T) | Err(error: Error)

  const Second: int := 1000000000                      // time.Second, in nanoseconds
  const DefaultLowSize: int := 800 * 1048576           // (1 << 20) * 800
  const DefaultHighSize: int := 1073741824             // 1 << 30
  const DefaultExpire: int := 24 * 3600 * 365 * Second // one year, as a Duration

  /** The Cache struct without its lifecycle plumbing: `entries` is valueList
      (front = least recently used), `index` is keyIndex with each element
      pointer replaced by the item it holds, `curSize` is curCacheSize. */
  datatype Cache<!V> = Cache(
    entries: seq<Item<V>>,
    index: map<string, Item<V>>,
    curSize: int,
    low: int,
    high: int,
    sizeOf: SizeOf<V>)

  /** The invariants the cache keeps under its lock: the index and the list hold the
      same keys, each key once and pointing at its list element, and curSize is the
      sum of the item sizes. */
  ghost predicate Wf<V>(c: Cache<V>)
  {
    && NoDupKeys(c.entries)
    && (forall e {:trigger e in c.entries} :: e in c.entries ==> e.key in c.index && c.index[e.key] == e)
    && (forall k {:trigger k in c.index} :: k in c.index ==> c.index[k] in c.entries && c.index[k].key == k)
    && c.curSize == Sum(c.sizeOf, c.entries)
    && c.low <= c.high
  }

  /** The fields of the JSON configuration setConfig reads; a missing field keeps
      its default. */
  datatype Config = Config(low: Option<int>, high: Option<int>)

  /** The low watermark a new cache gets: the configured one, else the default. */
  function EffLow(config: Option<Config>): int
  {
    if config.Some? && config.value.low.Some? then config.value.low.value else DefaultLowSize
  }

  /** The high watermark a new cache gets: the configured one, else the default. */
  function EffHigh(config: Option<Config>): int
  {
    if config.Some? && config.value.high.Some? then config.value.high.value else DefaultHighSize
  }

  /** NewCache: `config` is None when no configuration is given or it does not parse.
      setConfig compares the watermarks only after reading a configuration, so a
      configuration that sets only one of them can still panic against the default
      of the other. */
  function NewCache<V>(sizeOf: SizeOf<V>, config: Option<Config>): (r: Result<Cache<V>>)
    ensures r.Err? <==> config.Some? && EffHigh(config) < EffLow(config)
    ensures r.Err? ==> r.error == LowAboveHigh
    ensures config.None? ==> r.Ok? && r.value.low == DefaultLowSize && r.value.high == DefaultHighSize
    ensures r.Ok? ==> r.value.low == EffLow(config) && r.value.high == EffHigh(config) && r.value.sizeOf == sizeOf
    ensures r.Ok? ==> Wf(r.value) && r.value.entries == [] && r.value.index == map[]
  {
    var low := if config.Some? && config.value.low.Some? then config.value.low.value else DefaultLowSize;
    var high := if config.Some? && config.value.high.Some? then config.value.high.value else DefaultHighSize;
    if config.Some? && high < low then Err(LowAboveHigh)
    else Ok(Cache([], map[], 0, low, high, sizeOf))
  }

  /** True when `key` is stored and its expiry test is false at `now`. */
  predicate Live<V>(c: Cache<V>, key: string, now: int)
  {
    key in c.index && !Expired(c.index[key], now)
  }

  /** list.PushBack of a new item, recorded in keyIndex and added to curCacheSize. */
  function PushBack<V>(c: Cache<V>, e: Item<V>): (r: Cache<V>)
    requires Wf(c)
    requires e.key !in c.index
    ensures Wf(r)
    ensures r.entries == c.entries + [e]
    ensures r.index == c.index[e.key := e]
    ensures r.curSize == c.curSize + ItemSize(c.sizeOf, e)
    ensures r.low == c.low && r.high == c.high && r.sizeOf == c.sizeOf
  {
    PushBackWf(c, e);
    c.(entries := c.entries + [e], index := c.index[e.key := e], curSize := c.curSize + ItemSize(c.sizeOf, e))
  }

  lemma PushBackWf<V>(c: Cache<V>, e: Item<V>)
    requires Wf(c)
    requires e.key !in c.index
    ensures Wf(c.(entries := c.entries + [e], index := c.index[e.key := e], curSize := c.curSize + ItemSize(c.sizeOf, e)))
  {
    var es := c.entries + [e];
    var ix := c.index[e.key := e];
    PushBackNoDup(c, e, es);
    PushBackListInIndex(c, e, es, ix);
    PushBackIndexInList(c, e, es, ix);
    SumAppend(c.sizeOf, c.entries, [e]);
    assert Sum(c.sizeOf, [e]) == ItemSize(c.sizeOf, e);
    WfFromParts(c, es, ix, c.curSize + ItemSize(c.sizeOf, e));
  }

  lemma PushBackNoDup<V>(c: Cache<V>, e: Item<V>, es: seq<Item<V>>)
    requires Wf(c)
    requires e.key !in c.index
    requires es == c.entries + [e]
    ensures NoDupKeys(es)
  {
    forall i, j | 0 <= i < j < |es|
      ensures es[i].key != es[j].key
    {
      assert es[i] == c.entries[i];
      assert c.entries[i] in c.entries;
      if j < |c.entries| {
        assert es[j] == c.entries[j];
      }
    }
  }

  lemma PushBackListInIndex<V>(c: Cache<V>, e: Item<V>, es: seq<Item<V>>, ix: map<string, Item<V>>)
    requires Wf(c)
    requires e.key !in c.index
    requires es == c.entries + [e] && ix == c.index[e.key := e]
    ensures forall x :: x in es ==> x.key in ix && ix[x.key] == x
  {
    forall x | x in es
      ensures x.key in ix && ix[x.key] == x
    {
      if x != e {
        assert x in c.entries;
      }
    }
  }

  lemma PushBackIndexInList<V>(c: Cache<V>, e: Item<V>, es: seq<Item<V>>, ix: map<string, Item<V>>)
    requires Wf(c)
    requires es == c.entries + [e] && ix == c.index[e.key := e]
    ensures forall k :: k in ix ==> ix[k] in es && ix[k].key == k
  {
    forall k | k in ix
      ensures ix[k] in es && ix[k].key == k
    {
      if k != e.key {
        assert c.index[k] in c.entries;
      }
    }
  }

  /** list.Remove of the element of `k`, delete(keyIndex, k), and the size taken
      off curCacheSize: the removal Delete, ClearPrefixKeys and both reclamation
      paths share. */
  function Evict<V>(c: Cache<V>, k: string): (r: Cache<V>)
    requires Wf(c)
    requires k in c.index
    ensures Wf(r)
    ensures r.entries == RemoveMatching(c.entries, KeyIs(k))
    ensures r.index == c.index - {k}
    ensures r.curSize == c.curSize - ItemSize(c.sizeOf, c.index[k])
    ensures r.low == c.low && r.high == c.high && r.sizeOf == c.sizeOf
  {
    EvictWf(c, k);
    c.(entries := RemoveAt(c.entries, Find(c.entries, k)),
       index := c.index - {k},
       curSize := c.curSize - ItemSize(c.sizeOf, c.index[k]))
  }

  /** The element keyIndex[k] points at is the first (and only) one with key k. */
  lemma KeyPosition<V>(c: Cache<V>, k: string)
    requires Wf(c)
    requires k in c.index
    ensures Find(c.entries, k) < |c.entries|
    ensures c.entries[Find(c.entries, k)] == c.index[k]
  {
    var i := Find(c.entries, k);
    assert c.index[k] in c.entries;
    var j :| 0 <= j < |c.entries| && c.entries[j] == c.index[k];
    assert i <= j && c.entries[j].key == k;
  }

  /** Removing the element of a stored key is the filter by that key, and takes
      exactly its size off the total. */
  lemma EvictList<V>(c: Cache<V>, k: string)
    requires Wf(c)
    requires k in c.index
    ensures Find(c.entries, k) < |c.entries|
    ensures RemoveAt(c.entries, Find(c.entries, k)) == RemoveMatching(c.entries, KeyIs(k))
    ensures Sum(c.sizeOf, RemoveMatching(c.entries, KeyIs(k))) == c.curSize - ItemSize(c.sizeOf, c.index[k])
  {
    KeyPosition(c, k);
    var i := Find(c.entries, k);
    RemoveAtIsRemoveKey(c.entries, i);
    SumRemoveAt(c.sizeOf, c.entries, i);
  }

  /** Wf of a state given field by field. */
  lemma WfFromParts<V>(c: Cache<V>, es: seq<Item<V>>, ix: map<string, Item<V>>, size: int)
    requires NoDupKeys(es)
    requires forall e :: e in es ==> e.key in ix && ix[e.key] == e
    requires forall k :: k in ix ==> ix[k] in es && ix[k].key == k
    requires size == Sum(c.sizeOf, es)
    requires c.low <= c.high
    ensures Wf(c.(entries := es, index := ix, curSize := size))
  {
  }

  lemma EvictListInIndex<V>(c: Cache<V>, k: string)
    requires Wf(c)
    ensures forall e :: e in RemoveMatching(c.entries, KeyIs(k)) ==> e.key in c.index - {k} && (c.index - {k})[e.key] == e
  {
    forall e | e in RemoveMatching(c.entries, KeyIs(k))
      ensures e.key in c.index - {k} && (c.index - {k})[e.key] == e
    {
      RemoveMatchingMembers(c.entries, KeyIs(k));
      assert e in c.entries && e.key != k;
    }
  }

  lemma EvictIndexInList<V>(c: Cache<V>, k: string)
    requires Wf(c)
    ensures forall k' :: k' in c.index - {k} ==> c.index[k'] in RemoveMatching(c.entries, KeyIs(k)) && c.index[k'].key == k'
  {
    forall k' | k' in c.index - {k}
      ensures c.index[k'] in RemoveMatching(c.entries, KeyIs(k)) && c.index[k'].key == k'
    {
      assert c.index[k'] in c.entries;
      RemoveMatchingMembers(c.entries, KeyIs(k));
    }
  }

  lemma EvictWf<V>(c: Cache<V>, k: string)
    requires Wf(c)
    requires k in c.index
    ensures Find(c.entries, k) < |c.entries|
    ensures RemoveAt(c.entries, Find(c.entries, k)) == RemoveMatching(c.entries, KeyIs(k))
    ensures Wf(c.(entries := RemoveMatching(c.entries, KeyIs(k)),
                  index := c.index - {k},
                  curSize := c.curSize - ItemSize(c.sizeOf, c.index[k])))
  {
    EvictList(c, k);
    RemoveMatchingNoDup(c.entries, KeyIs(k));
    EvictListInIndex(c, k);
    EvictIndexInList(c, k);
    WfFromParts(c, RemoveMatching(c.entries, KeyIs(k)), c.index - {k}, c.curSize - ItemSize(c.sizeOf, c.index[k]));
  }

  /** valueList.Remove(valueList.Front()) with the matching delete and size update. */
  function PopFront<V>(c: Cache<V>): (r: Cache<V>)
    requires Wf(c)
    requires c.entries != []
    ensures Wf(r)
    ensures r.entries == c.entries[1..]
    ensures r.curSize == c.curSize - ItemSize(c.sizeOf, c.entries[0])
    ensures r.low == c.low && r.high == c.high && r.sizeOf == c.sizeOf
  {
    var front := c.entries[0];
    assert front in c.entries;
    RemoveAtIsRemoveKey(c.entries, 0);
    assert RemoveAt(c.entries, 0) == c.entries[1..];
    Evict(c, front.key)
  }

  /** list.MoveToBack of the element of `key`: the item and the index stay as they are. */
  function Promote<V>(c: Cache<V>, key: string): (r: Cache<V>)
    requires Wf(c)
    requires key in c.index
    ensures Wf(r)
    ensures r == c.(entries := RemoveMatching(c.entries, KeyIs(key)) + [c.index[key]])
  {
    var i := Find(c.entries, key);
    PromoteWf(c, key);
    c.(entries := MoveToBack(c.entries, i))
  }

  lemma PromoteWf<V>(c: Cache<V>, key: string)
    requires Wf(c)
    requires key in c.index
    ensures Find(c.entries, key) < |c.entries|
    ensures MoveToBack(c.entries, Find(c.entries, key)) == RemoveMatching(c.entries, KeyIs(key)) + [c.index[key]]
    ensures Wf(c.(entries := RemoveMatching(c.entries, KeyIs(key)) + [c.index[key]]))
  {
    KeyPosition(c, key);
    EvictList(c, key);
    ReinsertNewWf(c, c.index[key]);
    assert c.index[key := c.index[key]] == c.index;
  }

  // ---------------------------------------------------------------------------
  // Reads

  /** Get's result: the state after the call and the value returned (None is nil). */
  datatype Read<!V> = Read(cache: Cache<V>, val: Option<V>)

  /** Get: a stored key whose expiry test is false is returned and moved to the
      back; anything else is a miss that changes nothing (the stale entry stays
      until the sweep). lastAccess is not refreshed. */
  function Get<V>(c: Cache<V>, key: string, now: int): (r: Read<V>)
    requires Wf(c)
    ensures Wf(r.cache)
    ensures Live(c, key, now) ==>
              && r.val == Some(c.index[key].val)
              && r.cache == c.(entries := RemoveMatching(c.entries, KeyIs(key)) + [c.index[key]])
    ensures !Live(c, key, now) ==> r.val == None && r.cache == c
  {
    if key in c.index then
      var itm := c.index[key];
      if now - itm.lastAccess > itm.expired then Read(c, None)
      else Read(Promote(c, key), Some(itm.val))
    else Read(c, None)
  }

  /** GetEx: as Get, with the hit reported by a flag. */
  function GetEx<V>(c: Cache<V>, key: string, now: int): (r: (Read<V>, bool))
    requires Wf(c)
    ensures Wf(r.0.cache)
    ensures r.1 <==> Live(c, key, now)
    ensures r.1 ==>
              && r.0.val == Some(c.index[key].val)
              && r.0.cache == c.(entries := RemoveMatching(c.entries, KeyIs(key)) + [c.index[key]])
    ensures !r.1 ==> r.0.val == None && r.0.cache == c
  {
    if key in c.index then
      var itm := c.index[key];
      if now - itm.lastAccess > itm.expired then (Read(c, None), false)
      else (Read(Promote(c, key), Some(itm.val)), true)
    else (Read(c, None), false)
  }

  /** IsExist: the test of cache.go:180, the expiry test of Get negated; it only
      reads, so the state needs no result. */
  function IsExist<V>(c: Cache<V>, key: string, now: int): (r: bool)
    ensures r <==> Live(c, key, now)
  {
    key in c.index && now - c.index[key].lastAccess <= c.index[key].expired
  }

  /** What GetMulti returns for one key: the value when the key is stored and its
      expiry test is TRUE, nil otherwise. */
  function ExpiredValue<V>(index: map<string, Item<V>>, key: string, now: int): Option<V>
  {
    if key in index && Expired(index[key], now) then Some(index[key].val) else None
  }

  /** The body of GetMulti's loop for one key, with the test of line 88. */
  function MultiStep<V>(c: Cache<V>, key: string, now: int): (r: (Cache<V>, Option<V>))
    requires Wf(c)
    ensures Wf(r.0) && r.0.index == c.index && r.0.curSize == c.curSize
    ensures r.0.low == c.low && r.0.high == c.high && r.0.sizeOf == c.sizeOf
    ensures r.1 == ExpiredValue(c.index, key, now)
  {
    if key in c.index && now - c.index[key].lastAccess > c.index[key].expired
    then (Promote(c, key), Some(c.index[key].val))
    else (c, None)
  }

  /** GetMulti as written: the test on line 88 keeps the entries whose expiry test
      is TRUE, the opposite of Get. Each such entry is returned and moved to the back. */
  function GetMulti<V>(c: Cache<V>, keys: seq<string>, now: int): (r: (Cache<V>, seq<Option<V>>))
    requires Wf(c)
    ensures Wf(r.0) && r.0.index == c.index && r.0.curSize == c.curSize
    ensures r.0.low == c.low && r.0.high == c.high && r.0.sizeOf == c.sizeOf
    ensures |r.1| == |keys|
    ensures forall i :: 0 <= i < |keys| ==> r.1[i] == ExpiredValue(c.index, keys[i], now)
    decreases |keys|
  {
    if keys == [] then (c, [])
    else
      var step := MultiStep(c, keys[0], now);
      var rest := GetMulti(step.0, keys[1..], now);
      var out := [step.1] + rest.1;
      assert forall i :: 1 <= i < |keys| ==> out[i] == rest.1[i - 1] && keys[i] == keys[1..][i - 1];
      (rest.0, out)
  }

  // ---------------------------------------------------------------------------
  // Writes

  /** Put's result: the state after the call and whether Put then signals the
      reclaimer to shrink (curCacheSize >= high, read after the lock is released). */
  datatype Written<!V> = Written(cache: Cache<V>, shrink: bool)

  /** Put: a negative ttl becomes DefaultExpire. An existing key is moved to the
      back and its item replaced; a new key is pushed at the back. Either way the
      entry is last, the others keep their order, and curSize changes by the new
      size minus the old one. */
  function Put<V>(c: Cache<V>, key: string, val: V, expired: int, now: int): (r: Written<V>)
    requires Wf(c)
    ensures Wf(r.cache)
    ensures key in r.cache.index
    ensures r.cache.index[key] == Item(key, val, now, if expired < 0 then DefaultExpire else expired)
    ensures r.cache.entries == RemoveMatching(c.entries, KeyIs(key)) + [r.cache.index[key]]
    ensures r.cache.index == c.index[key := r.cache.index[key]]
    ensures r.cache.curSize ==
              c.curSize - (if key in c.index then ItemSize(c.sizeOf, c.index[key]) else 0) + c.sizeOf(key, val)
    ensures r.shrink <==> r.cache.curSize >= c.high
    ensures r.cache.low == c.low && r.cache.high == c.high && r.cache.sizeOf == c.sizeOf
  {
    var ttl := if expired < 0 then DefaultExpire else expired;
    var itm := Item(key, val, now, ttl);
    if key in c.index then
      var r := PutExisting(c, itm);
      Written(r, r.curSize >= r.high)
    else
      PutNewIsPushBack(c, itm);
      var r := PushBack(c, itm);
      Written(r, r.curSize >= r.high)
  }

  /** Put of a stored key: MoveToBack of its element, then the element's item is
      overwritten (key, value, lastAccess and ttl) and the size updated. */
  function PutExisting<V>(c: Cache<V>, itm: Item<V>): (r: Cache<V>)
    requires Wf(c)
    requires itm.key in c.index
    ensures Wf(r)
    ensures r.entries == RemoveMatching(c.entries, KeyIs(itm.key)) + [itm]
    ensures r.index == c.index[itm.key := itm]
    ensures r.curSize == c.curSize - ItemSize(c.sizeOf, c.index[itm.key]) + ItemSize(c.sizeOf, itm)
    ensures r.low == c.low && r.high == c.high && r.sizeOf == c.sizeOf
  {
    PutExistingIsReinsert(c, itm);
    var moved := MoveToBack(c.entries, Find(c.entries, itm.key));
    c.(entries := moved[|moved| - 1 := itm],
       index := c.index[itm.key := itm],
       curSize := c.curSize - ItemSize(c.sizeOf, c.index[itm.key]) + ItemSize(c.sizeOf, itm))
  }

  /** Put of a stored key, MoveToBack followed by overwriting the element's item,
      is the same as evicting the key and pushing the new item. */
  lemma PutExistingIsReinsert<V>(c: Cache<V>, itm: Item<V>)
    requires Wf(c)
    requires itm.key in c.index
    ensures Find(c.entries, itm.key) < |c.entries|
    ensures c.entries[Find(c.entries, itm.key)] == c.index[itm.key]
    ensures var moved := MoveToBack(c.entries, Find(c.entries, itm.key));
            && moved[|moved| - 1 := itm] == RemoveMatching(c.entries, KeyIs(itm.key)) + [itm]
            && Wf(c.(entries := moved[|moved| - 1 := itm],
                     index := c.index[itm.key := itm],
                     curSize := c.curSize - ItemSize(c.sizeOf, c.index[itm.key]) + ItemSize(c.sizeOf, itm)))
  {
    PutMovedList(c, itm);
    ReinsertNewWf(c, itm);
  }

  lemma PutMovedList<V>(c: Cache<V>, itm: Item<V>)
    requires Wf(c)
    requires itm.key in c.index
    ensures Find(c.entries, itm.key) < |c.entries|
    ensures c.entries[Find(c.entries, itm.key)] == c.index[itm.key]
    ensures var moved := MoveToBack(c.entries, Find(c.entries, itm.key));
            moved[|moved| - 1 := itm] == RemoveMatching(c.entries, KeyIs(itm.key)) + [itm]
  {
    KeyPosition(c, itm.key);
    EvictList(c, itm.key);
    var moved := MoveToBack(c.entries, Find(c.entries, itm.key));
    assert moved[|moved| - 1 := itm] == RemoveAt(c.entries, Find(c.entries, itm.key)) + [itm];
  }

  /** Evicting a stored key and pushing a new item with that key keeps the invariants. */
  lemma ReinsertNewWf<V>(c: Cache<V>, itm: Item<V>)
    requires Wf(c)
    requires itm.key in c.index
    ensures Wf(c.(entries := RemoveMatching(c.entries, KeyIs(itm.key)) + [itm],
                  index := c.index[itm.key := itm],
                  curSize := c.curSize - ItemSize(c.sizeOf, c.index[itm.key]) + ItemSize(c.sizeOf, itm)))
  {
    var key := itm.key;
    EvictWf(c, key);
    var ev := c.(entries := RemoveMatching(c.entries, KeyIs(key)),
                 index := c.index - {key},
                 curSize := c.curSize - ItemSize(c.sizeOf, c.index[key]));
    PushBackWf(ev, itm);
    assert ev.index[key := itm] == c.index[key := itm];
  }

  /** Put of a key that is not stored pushes the new item and removes nothing. */
  lemma PutNewIsPushBack<V>(c: Cache<V>, itm: Item<V>)
    requires Wf(c)
    requires itm.key !in c.index
    ensures RemoveMatching(c.entries, KeyIs(itm.key)) == c.entries
  {
    forall j | 0 <= j < |c.entries|
      ensures !Matches(KeyIs(itm.key), c.entries[j])
    {
      assert c.entries[j] in c.entries;
    }
    RemoveNothing(c.entries, KeyIs(itm.key));
  }

  /** Evicting the key just pushed restores the state. */
  lemma EvictUndoesPushBack<V>(c: Cache<V>, e: Item<V>)
    requires Wf(c)
    requires e.key !in c.index
    ensures Evict(PushBack(c, e), e.key) == c
  {
    var p := PushBack(c, e);
    var n := |c.entries|;
    assert p.entries[n] == e;
    RemoveAtIsRemoveKey(p.entries, n);
    assert RemoveAt(p.entries, n) == c.entries;
    assert p.index - {e.key} == c.index;
  }

  /** The outcome of Delete and DelayDelete: the state after the call and the
      error returned (None is a nil error). */
  datatype Done<!V> = Done(cache: Cache<V>, err: Option<Error>)

  /** Delete: a missing key is an error and changes nothing; a present one leaves
      list and index, the others keep their order, and its size is subtracted. */
  function Delete<V>(c: Cache<V>, key: string): (r: Done<V>)
    requires Wf(c)
    ensures Wf(r.cache)
    ensures r.err.Some? <==> key !in c.index
    ensures r.err.Some? ==> r.err.value == KeyNotExist && r.cache == c
    ensures r.err.None? ==>
              && r.cache.entries == RemoveMatching(c.entries, KeyIs(key))
              && r.cache.index.Keys == c.index.Keys - {key}
              && r.cache.curSize == c.curSize - ItemSize(c.sizeOf, c.index[key])
    ensures r.cache.low == c.low && r.cache.high == c.high && r.cache.sizeOf == c.sizeOf
  {
    if key in c.index then Done(Evict(c, key), None)
    else Done(c, Some(KeyNotExist))
  }

  /** DelayDelete: a missing key is an error. A live entry gets expired := delay and
      lastAccess := now in place, without moving; an expired one is left alone and
      no error is returned. The delay is not normalised. */
  function DelayDelete<V>(c: Cache<V>, key: string, delay: int, now: int): (r: Done<V>)
    requires Wf(c)
    ensures Wf(r.cache)
    ensures r.err == if key in c.index then None else Some(KeyNotExist)
    ensures !Live(c, key, now) ==> r.cache == c
    ensures Live(c, key, now) ==>
              && r.cache.index == c.index[key := c.index[key].(expired := delay, lastAccess := now)]
              && |r.cache.entries| == |c.entries|
              && (forall j :: 0 <= j < |c.entries| ==>
                    r.cache.entries[j] == if c.entries[j].key == key then r.cache.index[key] else c.entries[j])
              && r.cache.curSize == c.curSize
    ensures r.cache.low == c.low && r.cache.high == c.high && r.cache.sizeOf == c.sizeOf
  {
    if key in c.index then
      var itm := c.index[key];
      if now - itm.lastAccess <= itm.expired then
        var itm' := itm.(expired := delay, lastAccess := now);
        ReplaceWf(c, itm');
        var r := c.(entries := c.entries[Find(c.entries, key) := itm'], index := c.index[key := itm']);
        Done(r, None)
      else Done(c, None)
    else Done(c, Some(KeyNotExist))
  }

  /** Overwriting the element of a stored key in place with an item of the same key
      and size keeps the invariants. */
  lemma ReplaceWf<V>(c: Cache<V>, itm: Item<V>)
    requires Wf(c)
    requires itm.key in c.index
    requires ItemSize(c.sizeOf, itm) == ItemSize(c.sizeOf, c.index[itm.key])
    ensures Find(c.entries, itm.key) < |c.entries|
    ensures c.entries[Find(c.entries, itm.key)] == c.index[itm.key]
    ensures Wf(c.(entries := c.entries[Find(c.entries, itm.key) := itm], index := c.index[itm.key := itm]))
  {
    var key := itm.key;
    KeyPosition(c, key);
    var i := Find(c.entries, key);
    SumReplace(c.sizeOf, c.entries, i, itm);
    ReplaceNoDup(c.entries, i, itm);
    ReplaceListInIndex(c, itm, i, c.entries[i := itm], c.index[key := itm]);
    ReplaceIndexInList(c, itm, i, c.entries[i := itm], c.index[key := itm]);
    WfFromParts(c, c.entries[i := itm], c.index[key := itm], c.curSize);
  }

  lemma ReplaceNoDup<V>(es: seq<Item<V>>, i: nat, itm: Item<V>)
    requires NoDupKeys(es)
    requires i < |es| && itm.key == es[i].key
    ensures NoDupKeys(es[i := itm])
  {
    var es' := es[i := itm];
    forall a, b | 0 <= a < b < |es'|
      ensures es'[a].key != es'[b].key
    {
      assert es'[a].key == es[a].key && es'[b].key == es[b].key;
    }
  }

  lemma ReplaceListInIndex<V>(c: Cache<V>, itm: Item<V>, i: nat, es: seq<Item<V>>, ix: map<string, Item<V>>)
    requires Wf(c)
    requires itm.key in c.index
    requires i < |c.entries| && c.entries[i] == c.index[itm.key]
    requires es == c.entries[i := itm] && ix == c.index[itm.key := itm]
    ensures forall e :: e in es ==> e.key in ix && ix[e.key] == e
  {
    forall e | e in es
      ensures e.key in ix && ix[e.key] == e
    {
      var j :| 0 <= j < |es| && es[j] == e;
      if j != i {
        assert e == c.entries[j] && e in c.entries;
      }
    }
  }

  lemma ReplaceIndexInList<V>(c: Cache<V>, itm: Item<V>, i: nat, es: seq<Item<V>>, ix: map<string, Item<V>>)
    requires Wf(c)
    requires itm.key in c.index
    requires i < |c.entries| && c.entries[i] == c.index[itm.key]
    requires es == c.entries[i := itm] && ix == c.index[itm.key := itm]
    ensures forall k :: k in ix ==> ix[k] in es && ix[k].key == k
  {
    forall k | k in ix
      ensures ix[k] in es && ix[k].key == k
    {
      if k == itm.key {
        assert es[i] == itm;
      } else {
        assert c.index[k] in c.entries;
        var j :| 0 <= j < |c.entries| && c.entries[j] == c.index[k];
        assert j != i;
        assert es[j] == c.index[k];
      }
    }
  }

  /** ClearAll: a fresh list and index and a zero size. */
  function ClearAll<V>(c: Cache<V>): (r: Cache<V>)
    requires Wf(c)
    ensures Wf(r)
    ensures r.low == c.low && r.high == c.high && r.sizeOf == c.sizeOf
    ensures forall k :: k !in r.index
  {
    c.(entries := [], index := map[], curSize := 0)
  }

  // ---------------------------------------------------------------------------
  // Per-key scans over a snapshot of the keys (ClearPrefixKeys and the sweep)

  /** One iteration of a scan: if `k` is still stored and its entry matches, it is
      evicted; otherwise nothing happens. */
  function DropIfMatching<V>(c: Cache<V>, k: string, crit: Criterion): (r: Cache<V>)
    requires Wf(c)
    ensures Wf(r)
    ensures r.low == c.low && r.high == c.high && r.sizeOf == c.sizeOf
  {
    if k in c.index && Matches(crit, c.index[k]) then Evict(c, k) else c
  }

  /** The loop over the snapshot, one key after another. */
  function ScanKeys<V>(c: Cache<V>, keys: seq<string>, crit: Criterion): (r: Cache<V>)
    requires Wf(c)
    ensures Wf(r)
    ensures r.low == c.low && r.high == c.high && r.sizeOf == c.sizeOf
    decreases |keys|
  {
    if keys == [] then c
    else ScanKeys(DropIfMatching(c, keys[0], crit), keys[1..], crit)
  }

  /** `s` is what a scan of `c0` has left after visiting the keys in `done`: a
      well-formed state whose list is an ordered selection of c0's list, missing
      exactly the visited entries that match. */
  ghost predicate Scanned<V>(c0: Cache<V>, s: Cache<V>, crit: Criterion, done: set<string>)
  {
    && Wf(s)
    && IsSubseq(s.entries, c0.entries)
    && (forall e :: e in c0.entries ==> (e in s.entries <==> !(e.key in done && Matches(crit, e))))
  }

  lemma DropIfMatchingScans<V>(c0: Cache<V>, s: Cache<V>, k: string, crit: Criterion, done: set<string>)
    requires Wf(c0)
    requires Scanned(c0, s, crit, done)
    ensures Scanned(c0, DropIfMatching(s, k, crit), crit, done + {k})
  {
    var s' := DropIfMatching(s, k, crit);
    SubseqMembers(s.entries, c0.entries);
    if k in s.index && Matches(crit, s.index[k]) {
      RemoveMatchingIsSubseq(s.entries, KeyIs(k));
      SubseqTrans(s'.entries, s.entries, c0.entries);
      RemoveMatchingMembers(s.entries, KeyIs(k));
      forall e | e in c0.entries && e.key == k
        ensures Matches(crit, e)
      {
        assert s.index[k] in c0.entries;
      }
    } else {
      forall e | e in c0.entries && e.key == k
        ensures e in s.entries <==> !Matches(crit, e)
      {
        if k in s.index {
          assert s.index[k] in c0.entries;
          assert e == s.index[k];
        }
      }
    }
  }

  lemma {:induction false} ScanKeysScans<V>(c0: Cache<V>, s: Cache<V>, keys: seq<string>, crit: Criterion, done: set<string>)
    requires Wf(c0)
    requires Scanned(c0, s, crit, done)
    ensures Scanned(c0, ScanKeys(s, keys, crit), crit, done + (set k | k in keys))
    decreases |keys|
  {
    if keys == [] {
      assert done + (set k | k in keys) == done;
    } else {
      DropIfMatchingScans(c0, s, keys[0], crit, done);
      ScanKeysScans(c0, DropIfMatching(s, keys[0], crit), keys[1..], crit, done + {keys[0]});
      assert done + {keys[0]} + (set k | k in keys[1..]) == done + (set k | k in keys);
    }
  }

  /** A scan over a snapshot holding every stored key removes exactly the matching
      entries: the list becomes the filter of the old list, the index loses exactly
      the matching keys, and curSize drops by exactly their sizes. The order in which
      the snapshot lists the keys makes no difference. */
  lemma ScanKeysRemovesMatching<V>(c: Cache<V>, keys: seq<string>, crit: Criterion)
    requires Wf(c)
    requires forall k :: k in c.index ==> k in keys
    ensures ScanKeys(c, keys, crit).entries == RemoveMatching(c.entries, crit)
    ensures forall k :: k in ScanKeys(c, keys, crit).index <==> k in c.index && !Matches(crit, c.index[k])
    ensures forall k :: k in ScanKeys(c, keys, crit).index ==> ScanKeys(c, keys, crit).index[k] == c.index[k]
    ensures ScanKeys(c, keys, crit).curSize == c.curSize - Sum(c.sizeOf, Matching(c.entries, crit))
  {
    var r := ScanKeys(c, keys, crit);
    SubseqRefl(c.entries);
    ScanKeysScans(c, c, keys, crit, {});
    SubseqMembers(r.entries, c.entries);
    assert forall x :: x in r.entries <==> x in c.entries && !Matches(crit, x) by {
      forall x | x in c.entries
        ensures x.key in {} + (set k | k in keys)
      {
        assert x.key in c.index;
      }
    }
    SubseqWithSameMembersIsFilter(r.entries, c.entries, crit);
    SumSplits(c.sizeOf, c.entries, crit);
    forall k | k in c.index && !Matches(crit, c.index[k])
      ensures k in r.index
    {
      assert c.index[k] in r.entries;
    }
    forall k | k in r.index
      ensures k in c.index && r.index[k] == c.index[k]
    {
      assert r.index[k] in c.entries;
    }
  }

  /** ClearPrefixKeys over the snapshot of keys it takes: removes exactly the keys
      with the prefix, keeps the other entries in order, and subtracts exactly the
      removed sizes. */
  function ClearPrefixKeys<V>(c: Cache<V>, prefix: string, snapshot: seq<string>): (r: Cache<V>)
    requires Wf(c)
    requires forall k :: k in c.index ==> k in snapshot
    ensures Wf(r)
    ensures r.entries == RemoveMatching(c.entries, KeyHasPrefix(prefix))
    ensures forall k :: k in r.index <==> k in c.index && !HasPrefix(k, prefix)
    ensures r.curSize == c.curSize - Sum(c.sizeOf, Matching(c.entries, KeyHasPrefix(prefix)))
    ensures r.low == c.low && r.high == c.high && r.sizeOf == c.sizeOf
  {
    ScanKeysRemovesMatching(c, snapshot, KeyHasPrefix(prefix));
    ScanKeys(c, snapshot, KeyHasPrefix(prefix))
  }
}
