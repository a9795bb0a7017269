# Cache layer and session store over an ordered key-value store

This project models two application components of YellowDB, an ordered
key-value store. Both components keep their state in the store as JSON
records.

- **Cache layer** (`examples/cache_layer.py`, class `CacheLayer`). This is a
  cache-aside layer. Each logical key `K` is stored as two records: the
  serialized value under `cache:K`, and its metadata (key, creation time,
  expiry time, ttl, size) under `meta:K`.
  - `get` serves an entry only while it has not expired. A miss deletes a
    stale pair. When a loader value is supplied, a miss stores that value
    exactly as `set` does.
  - `set` writes both records in one batch. `delete` erases both.
  - `clear_expired` sweeps every pair whose metadata is past expiry.
  - `warm_cache` writes many pairs in one batch.
  - `get_stats` reports four counters (hits, misses, writes, evictions), the
    hit rate, and a census of the stored entries. The census includes
    expired entries that no sweep has removed yet.
- **Session store** (`examples/session_store.py`, class `SessionStore`).
  Sessions expire on a sliding window. Each session is one record under
  `session:S`.
  - A read of a live session moves its last-access time to now.
  - A read of an expired session deletes it.
  - `update_session` merges a patch into the session data, key by key.
  - `get_user_sessions` lists a user's sessions by scanning the prefix.
  - `cleanup_expired_sessions` deletes every expired session in one batch.
  - `get_stats` counts the sessions.

Most key-range reads of both components work the same way. They scan from
the prefix and stop at the first key that lacks it. The one exception is the
session count of `get_stats` (`examples/session_store.py` lines 166-168). It
filters the whole scan by the prefix, with no break.

The breaking loops are exact because keys sharing a prefix are contiguous in
lexicographic order. The proof of this is shared by both components. The
session count is modelled by `Store.CountWithPrefix`. It is exact for a
different reason: it runs to the end of the scan, and every key with the
prefix sorts at or after the prefix, so it is in the scan.

Modules:

- `Lex` (`lex.dfy`): lexicographic order on strings, the prefix relation,
  and the sorted enumeration of a finite key set.
- `Store` (`store.dfy`): the store as a finite map.
  - Batches of puts and erasures, applied in order.
  - `Scan` yields the keys at or after a start key, in increasing order.
  - The scan-until-mismatch loop (`PrefixScan`) and the proof that it visits
    exactly the prefixed keys.
- `CacheLayer` (`cache_layer.dfy`): `get`, `set`, `delete`,
  `clear_expired` and `warm_cache`, with the pairing invariant. The
  invariant says `cache:K` exists exactly when `meta:K` does, and that the
  metadata names `K`.
- `CacheStats` (`cache_stats.dfy`): the counter and census part of
  `get_stats`, and how `set` and `delete` move the census.
- `SessionStore` (`session_store.dfy`): the session operations and the
  session count of `get_stats`.

Every operation is a pure function from state to state, or a method with
loops over a scan. Each takes the wall clock as a parameter `now`, in whole
seconds. `create_session` takes the new session id as a parameter. Stored
values are their JSON encodings, modelled as non-empty byte sequences: JSON
text is never empty, so the source's truthiness tests on stored bytes are
presence tests. The records decode as the components expect. For the cache
this is `CacheLayer.Decodes`: metadata under `meta:`, values under `cache:`.
For sessions it is `SessionStore.Decodes`: a session under every `session:`
key.

Expiry boundaries follow the code:

- A cache `get` hits only while `now < expires_at` (line 73).
- `clear_expired` removes an entry only when `now > expires_at` (line 148).
- So at `now == expires_at` a `get` already misses while the sweep keeps the
  entry (`CacheLayer.ExpiryBoundary`).
- The sweep's test is the strict `current_time > expires_at` of line 148, and
  the model keeps it strict.
- A session is expired when `now - last_accessed > ttl_seconds`
  (lines 75 and 149).

## Model

| member | source | states |
|---|---|---|
| Store.ApplyErasures | examples/cache_layer.py:153-156 | A batch of erasures removes exactly the keys it names, whether or not they were present, and changes nothing else. |
| Store.Apply | examples/cache_layer.py:111-113 | A batch applies its puts and deletes in order: each put overrides and each delete removes, and the result is written at once. `Store.ApplyFrame` and `Store.ApplyErasures` state its meaning. |
| Store.ApplyFrame | examples/cache_layer.py:111-113 | A batch leaves every key it does not name as it was: present exactly when it was present before, and with the same value. |
| Store.ApplyConcat | examples/cache_layer.py:166-179 | Running two batches one after the other is the same as running their concatenation. |
| Store.Scan | examples/cache_layer.py:143 | `scan(start_key)` yields, strictly increasing, exactly the stored keys at or after the start key. |
| Store.ScanStopsAtPrefixEnd | examples/cache_layer.py:143-145 | A scan from `p` stopped at its first key without prefix `p` has visited exactly the stored keys that start with `p`. |
| Store.StopIndex | examples/cache_layer.py:143-145 | Where a loop over scanned keys breaks: the index of the first key without the prefix, or the end. Every key before it carries the prefix. The same break is at lines 191-193. |
| Store.StopIndexUnique | examples/session_store.py:125-127 | A loop that breaks at the first key without the prefix stops at the same index as `PrefixScan`. |
| Store.PrefixScan | examples/session_store.py:143-145 | The keys the scan-with-break loop visits are strictly sorted and are exactly the prefixed keys of the store. |
| Store.SortedCardinality | examples/cache_layer.py:190-193 | A strictly increasing scan lists no key twice, so its length is the number of keys it lists. |
| Store.ErasedKeysConcat | examples/cache_layer.py:152-156 | The keys deleted by two batches run together are the keys each deletes. |
| Store.PrefixScanCount | examples/cache_layer.py:190-195 | A prefix scan visits as many keys as the store holds under that prefix. |
| Lex.PastPrefixRange | examples/cache_layer.py:143-145 | A key at or after `p` that lacks prefix `p` sorts after every key that has it, so prefixed keys are contiguous. |
| Lex.LtUnderPrefix | examples/session_store.py:125-130 | A common prefix does not change the order of two keys, so scanning `session:` keys in order yields ids in order. |
| Lex.SortedKeys | examples/cache_layer.py:143 | The store enumerates a key set as a strictly increasing sequence with exactly the set's members. |
| CacheLayer.EffectiveTtl | examples/cache_layer.py:97 | The definition of `ttl or default_ttl`. The ttl is the given one when present and non-zero, and the default otherwise. `SetTtlFallback` and `WarmTtlFallback` state what it means for the operations. |
| CacheLayer.SetTtlFallback | examples/cache_layer.py:97 | `set` with an explicit ttl of 0 writes exactly what `set` without a ttl writes, which records the default ttl. Any other ttl puts the expiry that many seconds after `now`. |
| CacheLayer.MetaFor | examples/cache_layer.py:102-108 | The metadata record: the key, `created_at = now`, `expires_at = now + ttl`, the ttl, and the byte length of the encoded value. The same record is written by `warm_cache` at lines 171-177. |
| CacheLayer.EntryPuts | examples/cache_layer.py:111-113 | The two puts of one entry, `cache:K` then `meta:K`. `warm_cache` issues the same pair at lines 178-179. |
| CacheLayer.Set | examples/cache_layer.py:97-115 | Writes exactly `cache:K := v` and `meta:K := {K, now, now + ttl', ttl', len(v)}`; every other key is unchanged; `writes` grows by 1; decoding and pairing are preserved. |
| CacheLayer.Delete | examples/cache_layer.py:117-131 | Removes `cache:K` and `meta:K` and nothing else; `evictions` grows by 1 whether or not K existed; decoding and pairing are preserved. |
| CacheLayer.DeleteIdempotent | examples/cache_layer.py:124-131 | Deleting twice leaves the same store as deleting once; the eviction counter still counts both calls. |
| CacheLayer.RecordMiss | examples/cache_layer.py:67-79 | On a miss both records are deleted only when `cache:K` exists (a stale or orphaned value); otherwise nothing is deleted; `misses` grows by 1. |
| CacheLayer.Get | examples/cache_layer.py:64-86 | A servable entry is a hit: returns the stored value and only `hits` moves. A miss without loader returns nothing after the miss bookkeeping. A miss with a loader value stores it exactly as `set` would and returns it. Pairing is preserved. |
| CacheLayer.SetThenGet | examples/cache_layer.py:67-75 | Round trip: after `set(K, v, ttl)`, `get(K)` at any time before `now + ttl'` returns `v` and changes nothing but the hit counter. |
| CacheLayer.SetThenGetExpired | examples/cache_layer.py:73-79 | From `now + ttl'` on, `get(K)` without loader misses, removes both records and returns nothing. |
| CacheLayer.Servable | examples/cache_layer.py:67-73 | The hit test of `get`. `cache:K` holds a value, `meta:K` holds metadata, and `now < expires_at`. |
| CacheLayer.GetServable | examples/cache_layer.py:67-75 | A `get` of a servable key is a hit that returns its stored value. |
| CacheLayer.CollectExpired | examples/cache_layer.py:143-150 | The sweep's loop body: for each visited metadata record in scan order, it collects the record's `key` when `now > expires_at`. `CollectExpiredExact` states what it collects. |
| CacheLayer.PairErasures | examples/cache_layer.py:152-156 | The sweep's batch: two deletes per collected key, `cache:K` then `meta:K`. `PairErasuresErase` states that they erase exactly both records of each key. |
| CacheLayer.CollectExpiredExact | examples/cache_layer.py:143-150 | Under pairing, the sweep collects, strictly increasing, exactly the logical keys whose visited metadata has `now > expires_at`. |
| CacheLayer.CollectedAreExpired | examples/cache_layer.py:143-150 | Over the full `meta:` scan, the collected keys are exactly the expired entries and are listed without repetition. |
| CacheLayer.RemovingPairsKeepsPaired | examples/cache_layer.py:153-156 | Erasing both records of any set of logical keys preserves the pairing invariant. |
| CacheLayer.ClearExpiredCorrect | examples/cache_layer.py:143-157 | Under pairing, the sweep's collected keys are the expired entries, their count is the number of expired entries, and removing them keeps pairing. |
| CacheLayer.ClearExpired | examples/cache_layer.py:133-159 | Under pairing, removes exactly both records of every entry with `now > expires_at` and returns their number; `evictions` grows by that number; nothing is added or rewritten. |
| CacheLayer.ClearExpiredPerEntry | examples/cache_layer.py:148-156 | An entry survives the sweep, with both records unchanged, exactly when `expires_at >= now`. |
| CacheLayer.ClearExpiredKeepsOthers | examples/cache_layer.py:152-156 | For every decoding store, paired or not, the sweep never removes a key outside the `cache:` and `meta:` namespaces, because its batch deletes only `cache:K` and `meta:K` keys. |
| CacheLayer.ExpiryBoundary | examples/cache_layer.py:148 | At `now == expires_at` a `get` (line 73) already misses while `clear_expired` keeps the entry. |
| CacheLayer.SetEachFrame | examples/cache_layer.py:111-113 | Calling `set` on each pair writes both records of each key of the mapping and leaves every other key as it was. |
| CacheLayer.SetEachStores | examples/cache_layer.py:97-115 | With distinct keys, after `set` on each pair every key holds its own value and metadata with the shared `now` and ttl. |
| CacheLayer.WarmPuts | examples/cache_layer.py:166-179 | The warm-up batch: for each pair in order, a put of the value under `cache:K` and a put of the metadata under `meta:K`, with one `now` and one ttl. `WarmPutsAreSets` relates it to `set`. |
| CacheLayer.WarmTtlFallback | examples/cache_layer.py:163 | `warm_cache` with an explicit ttl of 0 leaves the same cache and returns the same count as `warm_cache` without a ttl. |
| CacheLayer.WarmPutsAreSets | examples/cache_layer.py:166-179 | The single batch of all puts writes the same store as `set` on each pair in turn. |
| CacheLayer.WarmCache | examples/cache_layer.py:161-182 | Returns the size of the mapping; `writes` grows by that size; decoding and pairing are preserved. |
| CacheLayer.WarmCacheIsSetEach | examples/cache_layer.py:161-182 | `warm_cache` leaves the cache exactly as `set` on each pair in turn with one `now` would. |
| CacheLayer.WarmCacheFrame | examples/cache_layer.py:166-179 | `warm_cache` adds both records of every key of the mapping and leaves every other key as it was. |
| CacheLayer.WarmCacheServes | examples/cache_layer.py:171-179 | After warming, every key of the mapping is servable until the shared expiry and holds its own value. |
| CacheLayer.WarmCacheThenGet | examples/cache_layer.py:171-179 | After warming, `get` of any key of the mapping before `now + ttl'` is a hit that returns that key's value. |
| CacheStats.HitRate | examples/cache_layer.py:186-187 | The hit rate is 0 before any request and always lies between 0 and 100. It is 0 exactly when there are no hits, and 100 exactly when there are hits and no misses. |
| CacheStats.SizeOf | examples/cache_layer.py:196 | The `size_bytes` of the metadata record under the key, which `metadata.get("size_bytes", 0)` reads. Every record that `set` and `warm_cache` write carries the field, so the source's default of 0 does not arise. The model also gives 0 for a key that holds no metadata, a case where the source would fail to decode. |
| CacheStats.SizeSumPick | examples/cache_layer.py:190-195 | The total size does not depend on the order of summation: any entry can be taken out first. |
| CacheStats.GetStats | examples/cache_layer.py:184-207 | Copies the four counters and the hit rate. `current_entries` is the number of `meta:` keys and `total_cached_size` the sum of their `size_bytes`, although the loop stops at the first key outside `meta:`. |
| CacheStats.CensusStop | examples/cache_layer.py:190-195 | Where the census loop breaks it has visited every `meta:` key and nothing else, and its step count is the number of entries. |
| CacheStats.CensusAfterPut | examples/cache_layer.py:190-195 | Adding or replacing one census key adds one entry only when it was new, and the total trades its old size for the new one. |
| CacheStats.SetUpdatesTotals | examples/cache_layer.py:101-115 | After `set(K, v)` the census has one more entry exactly when `meta:K` was new, and the total size trades K's old size for `len(v)`. |
| CacheStats.DeleteUpdatesTotals | examples/cache_layer.py:124-131 | After `delete(K)` the census loses one entry and its size exactly when `meta:K` existed. |
| SessionStore.CreateSession | examples/session_store.py:42-54 | Returns the id and adds exactly the record `session:S`, with `session_id = S`, `user_id = U`, both timestamps `now`, and `data` as given or empty. Nothing else changes. |
| SessionStore.CreateAddsOne | examples/session_store.py:42-54 | Creating a session under a fresh id grows the store by exactly one record. |
| SessionStore.DeleteSession | examples/session_store.py:105-112 | Removes `session:S` and nothing else; a missing session is a no-op. |
| SessionStore.DeleteSessionIdempotent | examples/session_store.py:112 | Deleting a session twice leaves the same store as deleting it once. |
| SessionStore.GetSession | examples/session_store.py:66-81 | Absent: nothing, store unchanged. Expired (`now - last_accessed > ttl`): deleted, nothing returned. Live: rewritten with `last_accessed := now` and all other fields kept, and the rewritten session returned. |
| SessionStore.CreateThenGet | examples/session_store.py:42-81 | A created session reads back within the ttl exactly as created, except that the access time is that of the read. |
| SessionStore.RefreshNeverRewinds | examples/session_store.py:79-80 | While the clock does not go back, a read never moves a session's access time backwards. |
| SessionStore.ReadsKeepSessionAlive | examples/session_store.py:75-81 | If each read comes at most `ttl_seconds` after the previous access, every read returns the session and it stays stored with the last read's time. |
| SessionStore.UpdateSession | examples/session_store.py:94-103 | Succeeds exactly when `get_session` finds the session; on failure the store is what `get_session` left. On success the data becomes the old data overridden key-wise by the patch, and keys not in the patch keep their values. The access time is `now`, other fields and other records are unchanged. |
| SessionStore.Expired | examples/session_store.py:75 | A session is expired when more than `ttl_seconds` have passed since its last access. The test is strict, and the same one is used at line 149. |
| SessionStore.Selects | examples/session_store.py:129 | The two filters: the session belongs to the user (line 129), or it is expired at the sweep's time (line 149). |
| SessionStore.Selected | examples/session_store.py:124-130 | The collecting loop of `get_user_sessions` and `cleanup_expired_sessions`: the `session_id` of each visited record the filter picks, in scan order. `SelectedMembers`, `SelectedSorted` and `SelectedCount` state what it collects. |
| SessionStore.SelectedMembers | examples/session_store.py:125-130 | Over session keys of a consistent store, an id is collected exactly when its session's key was visited and selected. |
| SessionStore.SelectedSorted | examples/session_store.py:125-130 | Over increasing session keys of a consistent store, the collected ids come out strictly increasing. |
| SessionStore.SelectedCount | examples/session_store.py:143-150 | Over distinct keys, the loop collects one id per selected record. |
| SessionStore.CollectIds | examples/session_store.py:125-130 | The scan-with-break loop collects the ids of the selected sessions in key order over exactly the `session:` keys. |
| SessionStore.GetUserSessions | examples/session_store.py:114-131 | Returns the `session_id` of each of the user's session records, live or not, in key order over exactly the `session:` keys. That is one id per session of the user. In a consistent store the ids are strictly increasing, and an id is listed exactly when `session:id` belongs to the user. |
| SessionStore.ErasuresExact | examples/session_store.py:152-155 | In a consistent store, the deletion batch built from the collected ids deletes exactly the selected session keys. |
| SessionStore.Erasures | examples/session_store.py:152-155 | The cleanup batch consists of deletes only. It deletes exactly the keys `session:id` of the collected ids. |
| SessionStore.EraseExpired | examples/session_store.py:152-155 | The cleanup batch only removes `session:` keys and rewrites nothing. In a consistent store it removes exactly the selected keys. |
| SessionStore.CleanupExpiredSessions | examples/session_store.py:133-157 | Collects the `session_id` of every expired record in key order, deletes `session:id` for each in one batch, and returns how many it collected. That is the number of sessions with `now - last_accessed > ttl`. In a consistent store it removes exactly those, and every other record and every non-session key is unchanged. |
| SessionStore.TotalSessions | examples/session_store.py:166-168 | The count of `get_stats` equals the number of `session:` keys in the store. |
| Store.CountWithPrefix | examples/session_store.py:166-168 | Counting the prefixed keys of a scan from `p` run to the end, without a break, counts exactly the stored keys under `p`. |

## Left out

- The storage engine is out of the model. This covers the memtable, durability, compaction, `db.stats()` and `close`. The store is an abstract finite map with a sorted scan, and a batch applies its operations in order, all at once.
- The pass-through figures `memtable_size` and `cache_entries` of both `get_stats` reports are out: they come from the engine.
- JSON encoding and decoding are abstracted away. Values are their (non-empty) encodings, and `size_bytes` is the length of the encoding.
- `datetime` and ISO timestamps are out. Time is an integer `now` in seconds. Every operation reads the clock once, as `now`. The source reads it again in several places, and the model treats those reads as the same instant. The places are the two `datetime.now()` calls of `set` and of `create_session`; the expiry test and the refresh of `get_session` (`examples/session_store.py` lines 75 and 79); the second stamp of `update_session` (line 99), after those of its `get_session`; and `get`'s expiry test (`examples/cache_layer.py` line 73) followed by the `set` of the loader path (line 83), which reads the clock at lines 104-105.
- Decode failures are out. Records are assumed to decode as the components expect (`Decodes`), and a record that does not would raise in the source.
- Loader exceptions are out. The loader is the value it returns, or absent.
- `secrets.token_urlsafe` is out: the new session id is a parameter. A fresh id adds one record; a clashing id overwrites, as the source's `set` would.
- CacheStats.HitRate: computed in exact real arithmetic, because floating-point rounding of the percentage is not modelled.
- Concurrency is out. Interleavings between the separate `get`, `delete` and `set` calls of `get` and `get_session` do not arise in a sequential model.
- Demo and printing code is out: `simulate_expensive_operation`, `demo_cache_layer`, `integration_example`, `demo`, `time.sleep`, the main guard.
- CacheLayer.ClearExpired: exactness is stated under the pairing invariant. Without it, a metadata record that names a different key would make the sweep erase that other key's records, as the source does.
- SessionStore.GetUserSessions: strict ordering and membership by id are stated for a consistent store, where every session is filed under its own id. Without that, the result is stated as the stored `session_id` fields of the user's records in key order, and their count.
- SessionStore.CleanupExpiredSessions: removal of exactly the expired keys is stated for a consistent store, because the source deletes by the stored `session_id` field. Without that, the result is stated as the batch of deletes built from the collected ids.
