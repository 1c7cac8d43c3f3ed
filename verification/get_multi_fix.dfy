/**
 GetMulti (cache.go:81-97) returns a value, and promotes the entry, only when the
 expiry test is TRUE, the opposite of Get, GetEx and IsExist. This module holds the
 evidently intended operation, the per-key fold of Get, with its property, and the
 lemmas that show where the code as written departs from it.
 */
module GetMultiFix {
  import opened Entries
  import opened LruCache

  /** What Get returns for one key: the value when the key is stored and its expiry
      test is false, nil otherwise. */
  function LiveValue<V>(index: map<string, Item<V>>, key: string, now: int): Option<V>
  {
    if key in index && !Expired(index[key], now) then Some(index[key].val) else None
  }

  /** Get on one key, seen from the loop: the index and the size stay as they are,
      so every later read sees the same items. */
  function ReadStep<V>(c: Cache<V>, key: string, now: int): (r: Read<V>)
    requires Wf(c)
    ensures Wf(r.cache) && r.cache.index == c.index && r.cache.curSize == c.curSize
    ensures r.cache.low == c.low && r.cache.high == c.high && r.cache.sizeOf == c.sizeOf
    ensures r.val == LiveValue(c.index, key, now)
  {
    Get(c, key, now)
  }

  /** GetMulti as intended: Get applied to each key in turn. Each result is the
      value of a live key and nil otherwise, judged on the original state. */
  function GetMultiIntended<V>(c: Cache<V>, keys: seq<string>, now: int): (r: (Cache<V>, seq<Option<V>>))
    requires Wf(c)
    ensures Wf(r.0) && r.0.index == c.index && r.0.curSize == c.curSize
    ensures r.0.low == c.low && r.0.high == c.high && r.0.sizeOf == c.sizeOf
    ensures |r.1| == |keys|
    ensures forall i :: 0 <= i < |keys| ==> r.1[i] == LiveValue(c.index, keys[i], now)
    decreases |keys|
  {
    if keys == [] then (c, [])
    else
      var g := ReadStep(c, keys[0], now);
      var rest := GetMultiIntended(g.cache, keys[1..], now);
      var out := [g.val] + rest.1;
      assert forall i :: 1 <= i < |keys| ==> out[i] == rest.1[i - 1] && keys[i] == keys[1..][i - 1];
      (rest.0, out)
  }

  /** Each result of the intended GetMulti is exactly what a single Get of that key
      on the original state returns. */
  lemma GetMultiIntendedIsGet<V>(c: Cache<V>, keys: seq<string>, now: int)
    requires Wf(c)
    ensures forall i :: 0 <= i < |keys| ==> GetMultiIntended(c, keys, now).1[i] == Get(c, keys[i], now).val
  {
  }

  /** For every stored key the code as written returns nil exactly where the
      intended operation returns the value, and the value exactly where it returns
      nil; for a missing key both return nil. */
  lemma GetMultiInvertsIntended<V>(c: Cache<V>, keys: seq<string>, now: int)
    requires Wf(c)
    ensures forall i :: 0 <= i < |keys| && keys[i] in c.index ==>
              (GetMulti(c, keys, now).1[i].Some? <==> GetMultiIntended(c, keys, now).1[i].None?)
    ensures forall i :: 0 <= i < |keys| && keys[i] !in c.index ==>
              GetMulti(c, keys, now).1[i].None? && GetMultiIntended(c, keys, now).1[i].None?
  {
  }

  /** The concrete input: "a" was written at time 0 with a ten-nanosecond ttl and is
      read at time 0. Get returns its value; GetMulti returns nil for it. */
  lemma GetMultiMissesLiveKey()
    ensures var itm := Item("a", 1, 0, 10);
            var c := Cache([itm], map["a" := itm], 0, 0, 0, (k: string, v: int) => 0);
            && Wf(c)
            && Get(c, "a", 0).val == Some(1)
            && GetMulti(c, ["a"], 0).1 == [None]
            && GetMultiIntended(c, ["a"], 0).1 == [Some(1)]
  {
    var itm := Item("a", 1, 0, 10);
    var c := Cache([itm], map["a" := itm], 0, 0, 0, (k: string, v: int) => 0);
    assert Sum(c.sizeOf, c.entries) == 0;
    assert Wf(c);
    assert GetMulti(c, ["a"], 0).1[0] == None;
    assert GetMultiIntended(c, ["a"], 0).1[0] == Some(1);
  }
}
