# LRU/TTL cache engine: a Dafny model

This project models the in-memory cache of `cache.go` and proves properties of the model. The cache is a size-bounded, time-expiring key/value store. Its state has three parts:

- `valueList`: a recency list with the least recently used entry at the front.
- `keyIndex`: a map from key to list element.
- `curCacheSize`: the running size total.

The model covers the public operations `Get`, `GetEx`, `GetMulti`, `Put`, `Delete`, `DelayDelete`, `IsExist`, `ClearAll` and `ClearPrefixKeys`. It also covers the two bodies of the background goroutine: the LRU shrink and the expiry sweep.

Every operation runs under one cache-wide mutex in the source. Each is therefore one atomic state transition here. The clock (`time.Now().Unix()`) is an explicit parameter `now`.

Modules:

- `Entries` (`entries.dfy`): the `Item` record (MemoryItem) and the list operations. These are search by key, removal at a position, move to back, the filter `RemoveMatching` and the size total `Sum`. It also holds the subsequence lemmas.
- `LruCache` (`cache.dfy`): the `Cache` state and its invariant `Wf`, and the public operations. It also holds the per-key scan over a snapshot of keys, which `ClearPrefixKeys` and the sweep share.
- `ShrinkCache` (`shrink_cache.dfy`): `Shrink` (the loop, one recursive call per iteration) and `Sweep`.
- `CacheProperties` (`properties.dfy`): lemmas that relate several operations.
- `GetMultiFix` (`get_multi_fix.dfy`): the `GetMulti` discrepancy (see Findings).

Representation choices:

- `keyIndex` maps a key to the item its list element holds. A `*list.Element` pointer becomes the item it points at.
- `MemoryItem.Size()` is not part of this model. It is the field `sizeOf: (string, V) -> nat` of the state, and nothing is assumed about it except that it is deterministic and non-negative.
- A nil value returned for a miss is `None`.
- An operation that returns an error returns the state together with an `Option<Error>`.
- The panics of the source are `Err` results: `setConfig` with `high < low`, and the shrink loop reaching `list.Remove(nil)`.

The invariant `Wf` says four things:

- No key occurs twice in the list.
- Every list entry's key is in the index, and the index maps it to that entry.
- Every index key maps to an entry of the list that carries that key.
- `curSize` is the sum of the item sizes, and `low <= high`.

Every operation that returns a state is proved to preserve `Wf`.

Behaviour of the code worth noting:

- `Get` and `GetEx` do not refresh `lastAccess` on a hit (cache.go:74-75). Only `Put` and `DelayDelete` set it.
- The expiry test `now - lastAccess > int64(expired)` compares seconds with a `time.Duration`, which counts nanoseconds. An entry put with a five-second ttl is therefore still returned six seconds later (`CacheProperties.FiveSecondTtlStillLiveAfterSixSeconds`). The model keeps the test exactly as written.
- `DelayDelete` stores a negative delay as it is. The entry is then expired at once, so a stored ttl is not always `>= 0`.
- `GetMulti` uses the opposite test from `Get` (see Findings).
- With a negative `low`, the shrink loop empties the list and then panics (`Err(NilElement)`). The `low <= high` check happens only when a configuration is supplied and parses. A missing field keeps its default for that check, so a configuration with only `low` above 1 GiB panics (`CacheProperties.OneSidedConfigChecksAgainstDefault`).

## Model

| member | source | states |
|---|---|---|
| LruCache.NewCache | cache.go:35-49 | Each watermark is the configured value, or its default (800 MiB low, 1 GiB high) when the field is missing. Without a configuration the defaults are used and construction always succeeds. With one, construction fails (the panic of setConfig) exactly when the resulting high < low, including when only one field is set. A constructed cache is empty, keeps the given size function and satisfies the invariant. |
| CacheProperties.OneSidedConfigChecksAgainstDefault | cache.go:234-246 | A configuration with only low = 2 GiB, or only a high below the default low, panics against the other default; an empty configuration gets both defaults. |
| LruCache.PushBack | cache.go:130-134 | Appending an item with a fresh key keeps the invariant: the list gains it at the back, the index gains the key, and the size grows by exactly its size. The watermarks and the size function are unchanged. |
| LruCache.Evict | cache.go:146-149 | Removing a stored key keeps the invariant. The list becomes the old list without that key's entry, in the same order. The index loses exactly that key, and the size drops by exactly that entry's size. |
| LruCache.PopFront | cache.go:269-273 | Removing the front element leaves the rest of the list as it was and subtracts the front entry's size, keeping the invariant. |
| LruCache.Promote | cache.go:74 | MoveToBack of a stored key: the entry becomes last, the others keep their relative order, and index and size are unchanged. |
| LruCache.IsExist | cache.go:173-182 | True exactly when the key is stored and its expiry test is false: the read Get would hit. |
| LruCache.Get | cache.go:66-78 | A stored key whose expiry test is false returns its value and moves it to the back. The others keep their order, and index and size are untouched. A missing or expired key returns nil and leaves the state identical: no removal, no reordering. |
| LruCache.GetEx | cache.go:100-112 | Same as Get, with the flag true exactly on a hit. A miss returns (nil, false) and changes nothing. |
| CacheProperties.GetExAgreesWithGet | cache.go:100-112 | GetEx returns exactly Get's value and state, and its flag is true exactly when Get returns a value. |
| CacheProperties.ExistAgreesWithGet | cache.go:173-182 | IsExist is true exactly when Get would hit, i.e. the key is stored and its expiry test is false. IsExist returns no new state, so it never reorders. |
| CacheProperties.GetHitMovesToBack | cache.go:74 | After a hit the list has the same length and the key is at the most-recently-used end. |
| CacheProperties.MatchingOneKey | cache.go:32 | In a well-formed cache exactly one list entry carries a stored key, the one the index points to. |
| LruCache.GetMulti | cache.go:81-97 | As written: the output has one slot per key. A slot holds the value exactly when the key is stored and its expiry test is TRUE; a missing key gives nil. Index and size are unchanged, and the invariant holds. |
| LruCache.Put | cache.go:117-140 | A negative ttl is stored as DefaultExpire. The key's new item gets lastAccess = now and is the last list entry. The other entries keep their order. The index maps the key to the new item and keeps every other key. The size changes by the new size minus the old size (the old size is 0 for a new key). The shrink signal is sent exactly when the new size is at least high. |
| LruCache.PutExisting | cache.go:122-129 | Overwriting a stored key keeps the invariant: its entry leaves its place and the new item is last, the others keep their order, the index maps the key to the new item, and the size changes by the new size minus the old one. The watermarks and the size function are unchanged. |
| CacheProperties.GetAfterPut | cache.go:117-133 | A value put at now is read back at now + d exactly when d is at most the stored ttl, in the raw units of the expiry test. |
| CacheProperties.FiveSecondTtlStillLiveAfterSixSeconds | cache.go:71 | Because seconds are compared with a nanosecond Duration, a five-second ttl still hits six seconds later. |
| LruCache.Delete | cache.go:143-154 | A missing key gives the "key not exist" error and the identical state. A present key leaves list and index, the remaining entries keep their order, and its size is subtracted. The watermarks and the size function are unchanged in both cases. |
| CacheProperties.DeleteUndoesPutOfNewKey | cache.go:130-154 | Deleting a key just put for the first time restores the exact previous state. |
| LruCache.DelayDelete | cache.go:157-170 | A missing key gives the error. For a live key, nothing moves: every list position holds the same key as before. The key's item gets expired := delay and lastAccess := now, and the size is unchanged. An expired key leaves the state identical, with a nil error. The watermarks and the size function are never changed. |
| CacheProperties.DelayDeleteRestartsLifetime | cache.go:160-165 | After DelayDelete on a live key, the key exists at now + d exactly when d is at most the delay. |
| LruCache.ClearAll | cache.go:185-191 | The result keeps the invariant and has no keys, so its list is empty and its size is 0. The watermarks are kept. |
| CacheProperties.ClearAllForgetsEverything | cache.go:185-191 | After ClearAll every Get misses, IsExist is false and Delete reports the key missing. |
| LruCache.DropIfMatching | cache.go:203-214 | One iteration of a per-key scan keeps the invariant. |
| LruCache.ScanKeys | cache.go:202-216 | The loop over a snapshot of keys keeps the invariant and the watermarks. |
| LruCache.DropIfMatchingScans | cache.go:203-214 | One iteration extends what has been scanned: the list remains an ordered selection of the original, missing exactly the visited entries that match. |
| LruCache.ScanKeysScans | cache.go:196-216 | The whole loop over any sequence of keys leaves an ordered selection of the original list that misses exactly the visited matching entries. |
| LruCache.ScanKeysRemovesMatching | cache.go:194-217 | If the snapshot holds every stored key, in any order, the scan leaves exactly the filter of the original list. The index keeps exactly the non-matching keys with their items, and the size drops by exactly the sizes of the removed entries. |
| LruCache.ClearPrefixKeys | cache.go:194-217 | Removes exactly the keys with the prefix and keeps every other key. The other entries stay in their original order, the removed sizes are subtracted exactly, and the invariant holds. |
| ShrinkCache.Shrink | cache.go:264-281 | With low >= 0 the loop ends with size <= low, with the invariant kept and the watermarks unchanged. Nothing is removed when the size starts at or below low. With low < 0 the list runs empty and the loop panics (Err). |
| ShrinkCache.ShrinkEvictsFront | cache.go:266-273 | The loop removes from the front only, so the survivors are a suffix of the list. Each removal happened while the size of the list from that position on was still above low. |
| ShrinkCache.Sweep | cache.go:284-307 | If the snapshot holds every stored key, exactly the entries whose expiry test holds at now are removed. The rest keep their order, no survivor is expired, and the size drops by exactly the removed sizes. |
| CacheProperties.SweepKeepsExactlyExisting | cache.go:293-307 | After a sweep a key is still stored exactly when IsExist held for it before the sweep. |
| Entries.RemoveAtIsRemoveKey | cache.go:149 | In a list without duplicate keys, list.Remove of one element is the same as filtering out that element's key. |
| Entries.SubseqWithSameMembersIsFilter | cache.go:194-217 | An order-preserving selection from a list without duplicate keys that holds exactly the non-matching entries is the filter. This is why the order of the snapshot does not matter. |
| Entries.SumSplits | cache.go:208 | The size total of a list is the total of the kept entries plus the total of the removed ones. |
| GetMultiFix.GetMultiIntended | cache.go:81-97 | Corrected GetMulti, i.e. Get on each key in turn. One result per key: the value of a key that is stored and whose expiry test is false, nil otherwise. Index and size are unchanged and the invariant holds. |
| GetMultiFix.GetMultiIntendedIsGet | cache.go:66-97 | Each result of the corrected GetMulti is exactly what a single Get of that key on the original state returns. |
| GetMultiFix.GetMultiInvertsIntended | cache.go:88 | For every stored key, GetMulti as written returns a value exactly where the intended operation returns nil, and nil exactly where it returns a value. Both return nil for a missing key. |
| GetMultiFix.GetMultiMissesLiveKey | cache.go:88 | Concrete input: "a" is stored at time 0 with expired = 10 and read at time 0. Get and the intended GetMulti return 1; GetMulti as written returns nil. |

## Left out

- Goroutine, mutex, channels, `waitGroup`, ticker, `Destroy` and `runtime.GC()` (cache.go:44-63, 258-263, 308-311) are concurrency and lifecycle plumbing. Each operation is one atomic step.
- The shrink trigger in `Put` (cache.go:137-138) reads `curCacheSize` outside the lock and does a channel send. The model returns the trigger as `Put`'s `shrink` flag, and `Shrink` is a separate operation callable on any well-formed state.
- `ClearPrefixKeys`, the sweep and the shrink loop release the lock between iterations (and the first two between the key snapshot and the first step). The model runs each of them without interleaving, so operations that race with them are not modelled. The snapshot is a parameter that must contain every stored key. Go map iteration order is arbitrary, so any order is allowed, and the result is proved independent of it.
- `GetMulti` and the sweep call `time.Now()` once per key, and `DelayDelete` calls it twice (cache.go:162 for the test, cache.go:164 for the new `lastAccess`). The model uses one `now` for the whole call.
- `setConfig` (cache.go:220-255): JSON decoding, the float64-to-int conversion, and the `name` and `interval` fields are not modelled. `Config` carries the two watermarks, and a configuration that does not parse is `None`.
- `MemoryItem` and `Size()` are not part of this model. The size is the abstract `sizeOf` field. Anything it might depend on besides key and value is not modelled.
- Integer widths: `now - lastAccess` (int64) and `curCacheSize` (int) are unbounded integers, so overflow is not modelled. Unix times and sizes stay far from the limits.
- Strings are `seq<char>`. `strings.HasPrefix` works on bytes and is modelled as the sequence-prefix test, which agrees for valid UTF-8.
- The unused counters (`clearNum`, `clearSize`, `shrinkNum`, `shrinkSize`) and `GetCacheName` are not modelled.
- A Go `interface{}` value can itself be nil, so a stored nil is indistinguishable from a miss in `Get`. The model's `Option` keeps the two apart.
- ShrinkCache.Shrink: the `for` loop is modelled as tail recursion, one call per iteration. The eviction order is proved in `ShrinkCache.ShrinkEvictsFront` as "the survivors are a suffix of the list". The removed entries are not returned separately.

## Findings

| source | as written | input that shows it | evidently intended | confidence | as-written member | corrected member |
|---|---|---|---|---|---|---|
| cache.go:88 | `GetMulti` returns the value and moves the entry to the back only when `now - lastAccess > expired`, i.e. only for expired entries | "a" stored at time 0 with expired = 10 and read at time 0: `Get` returns 1, `GetMulti(["a"])` returns `[nil]` | the same test as `Get` (line 71): a live entry is returned and promoted, an expired one is a miss | high, not executed | GetMultiFix.GetMultiMissesLiveKey | GetMultiFix.GetMultiIntended |
