/**
 The cache-aside layer. Each logical key K is held as two records of the
 ordered store: the serialized value under `cache:K` and its metadata under
 `meta:K`. Entries expire by time-to-live, lazily when read and in bulk by a
 sweep; four counters record hits, misses, writes and evictions.

 Every operation is a pure transition from one `Cache` to the next; the wall
 clock is the parameter `now` (whole seconds).
 */
module CacheLayer {
  import opened Lex
  import opened Store

  const CachePrefix: string := "cache:"
  const MetaPrefix: string := "meta:"

  function CacheKey(key: string): string
  {
    CachePrefix + key
  }

  function MetaKey(key: string): string
  {
    MetaPrefix + key
  }

  /** The metadata record of an entry; `expiresAt` is fixed when the entry is written. */
  datatype Meta = Meta(key: string, createdAt: int, expiresAt: int, ttl: int, sizeBytes: nat)

  /** What a record of the store decodes to. */
  datatype Record = Value(bytes: Encoded) | Metadata(meta: Meta)

  type Db = map<string, Record>

  datatype Counters = Counters(hits: nat, misses: nat, writes: nat, evictions: nat)

  datatype Cache = Cache(db: Db, defaultTtl: int, stats: Counters)

  /**
   Records decode as the layer expects: metadata under `meta:`, serialized
   values under `cache:`. Other keys of the store are never read.
   */
  ghost predicate Decodes(db: Db)
  {
    forall k :: k in db ==>
      (StartsWith(k, MetaPrefix) ==> db[k].Metadata?) && (StartsWith(k, CachePrefix) ==> db[k].Value?)
  }

  /**
   The pairing invariant: `cache:K` exists exactly when `meta:K` does, and the
   metadata names its own logical key.
   */
  ghost predicate Paired(db: Db)
  {
    && Decodes(db)
    && (forall key :: CacheKey(key) in db <==> MetaKey(key) in db)
    && (forall key :: MetaKey(key) in db ==> db[MetaKey(key)].Metadata? && db[MetaKey(key)].meta.key == key)
  }

  /** The two namespaces never meet, and each key function is injective. */
  lemma Keyspaces()
    ensures forall a :: StartsWith(CacheKey(a), CachePrefix) && !StartsWith(CacheKey(a), MetaPrefix)
    ensures forall a :: StartsWith(MetaKey(a), MetaPrefix) && !StartsWith(MetaKey(a), CachePrefix)
    ensures forall a, b :: CacheKey(a) != MetaKey(b)
    ensures forall a, b :: CacheKey(a) == CacheKey(b) ==> a == b
    ensures forall a, b :: MetaKey(a) == MetaKey(b) ==> a == b
  {
    forall a
      ensures StartsWith(CacheKey(a), CachePrefix) && !StartsWith(CacheKey(a), MetaPrefix)
      ensures StartsWith(MetaKey(a), MetaPrefix) && !StartsWith(MetaKey(a), CachePrefix)
    {
      assert CacheKey(a)[..|CachePrefix|] == CachePrefix;
      assert MetaKey(a)[..|MetaPrefix|] == MetaPrefix;
      assert CacheKey(a)[0] == 'c';
      assert MetaKey(a)[0] == 'm';
    }
    forall a, b
      ensures CacheKey(a) != MetaKey(b)
    {
      assert CacheKey(a)[0] == 'c';
      assert MetaKey(b)[0] == 'm';
    }
    forall a, b | CacheKey(a) == CacheKey(b)
      ensures a == b
    {
      assert a == CacheKey(a)[|CachePrefix|..];
      assert b == CacheKey(b)[|CachePrefix|..];
    }
    forall a, b | MetaKey(a) == MetaKey(b)
      ensures a == b
    {
      assert a == MetaKey(a)[|MetaPrefix|..];
      assert b == MetaKey(b)[|MetaPrefix|..];
    }
  }

  /** Every `meta:` key is the metadata key of the rest of the string. */
  lemma MetaKeyOfSuffix(k: string)
    requires StartsWith(k, MetaPrefix)
    ensures k == MetaKey(k[|MetaPrefix|..])
  {
    assert k == k[..|MetaPrefix|] + k[|MetaPrefix|..];
  }

  /** `ttl or default_ttl`: an absent ttl and an explicit 0 both fall back to the default. */
  function EffectiveTtl(ttl: Option<int>, defaultTtl: int): int
  {
    if ttl.Some? && ttl.value != 0 then ttl.value else defaultTtl
  }

  /** The metadata `set` and `warm_cache` write for `value` at time `now`. */
  function MetaFor(key: string, value: Encoded, now: int, ttl: int): Meta
  {
    Meta(key, now, now + ttl, ttl, |value|)
  }

  /** The two puts of one entry, in the order the batch issues them. */
  function EntryPuts(key: string, value: Encoded, now: int, ttl: int): seq<Op<Record>>
  {
    [Put(CacheKey(key), Value(value)), Put(MetaKey(key), Metadata(MetaFor(key, value, now, ttl)))]
  }

  /**
   `set(key, value, ttl)`: one batch writes `cache:K` and `meta:K`; the write
   counter goes up by one.
   */
  function Set(c: Cache, key: string, value: Encoded, ttl: Option<int>, now: int): (r: Cache)
    ensures r.db.Keys == c.db.Keys + {CacheKey(key), MetaKey(key)}
    ensures r.db[CacheKey(key)] == Value(value)
    ensures r.db[MetaKey(key)] == Metadata(MetaFor(key, value, now, EffectiveTtl(ttl, c.defaultTtl)))
    ensures forall k :: k in c.db && k != CacheKey(key) && k != MetaKey(key) ==> r.db[k] == c.db[k]
    ensures r.stats == c.stats.(writes := c.stats.writes + 1)
    ensures r.defaultTtl == c.defaultTtl
    ensures Decodes(c.db) ==> Decodes(r.db)
    ensures Paired(c.db) ==> Paired(r.db)
  {
    var t := EffectiveTtl(ttl, c.defaultTtl);
    var db := Apply(c.db, EntryPuts(key, value, now, t));
    Keyspaces();
    ApplyPair(c.db, EntryPuts(key, value, now, t)[0], EntryPuts(key, value, now, t)[1]);
    assert db == c.db[CacheKey(key) := Value(value)][MetaKey(key) := Metadata(MetaFor(key, value, now, t))];
    c.(db := db, stats := c.stats.(writes := c.stats.writes + 1))
  }

  /**
   `delete(key)`: one batch erases both records; the eviction counter goes up
   by one whether or not the entry existed.
   */
  function Delete(c: Cache, key: string): (r: Cache)
    ensures r.db.Keys == c.db.Keys - {CacheKey(key), MetaKey(key)}
    ensures forall k :: k in r.db ==> r.db[k] == c.db[k]
    ensures r.stats == c.stats.(evictions := c.stats.evictions + 1)
    ensures r.defaultTtl == c.defaultTtl
    ensures Decodes(c.db) ==> Decodes(r.db)
    ensures Paired(c.db) ==> Paired(r.db)
  {
    var db := Apply(c.db, [Erase(CacheKey(key)), Erase(MetaKey(key))]);
    Keyspaces();
    ApplyPair(c.db, Erase(CacheKey(key)), Erase(MetaKey(key)));
    c.(db := db, stats := c.stats.(evictions := c.stats.evictions + 1))
  }

  /** The entry for `key` is served at `now`: both records are present and `now` is before expiry. */
  ghost predicate Servable(db: Db, key: string, now: int)
  {
    CacheKey(key) in db && MetaKey(key) in db && db[MetaKey(key)].Metadata? && now < db[MetaKey(key)].meta.expiresAt
  }

  /**
   The miss bookkeeping of `get`: when the value record exists, both records
   are deleted by two point deletes; the miss counter goes up by one.
   */
  function RecordMiss(c: Cache, key: string): (r: Cache)
    requires Decodes(c.db)
    ensures CacheKey(key) in c.db ==> r.db == c.db - {CacheKey(key), MetaKey(key)}
    ensures CacheKey(key) !in c.db ==> r.db == c.db
    ensures r.stats == c.stats.(misses := c.stats.misses + 1)
    ensures r.defaultTtl == c.defaultTtl
    ensures Decodes(r.db)
    ensures Paired(c.db) ==> Paired(r.db)
  {
    var ck := CacheKey(key);
    var mk := MetaKey(key);
    var db := if ck in c.db then c.db - {ck} - {mk} else c.db;
    Keyspaces();
    c.(db := db, stats := c.stats.(misses := c.stats.misses + 1))
  }

  /**
   `get(key, loader, ttl)`. A servable entry is a hit and is returned as is.
   Anything else is a miss: when the value record exists its two records are
   deleted (the metadata was missing or expired); then the loader's value, if
   one is supplied, is stored exactly as `set` would and returned. Without a
   loader a miss writes nothing.
   */
  function Get(c: Cache, key: string, loader: Option<Encoded>, ttl: Option<int>, now: int): (r: (Cache, Option<Encoded>))
    requires Decodes(c.db)
    ensures Servable(c.db, key, now) ==>
      && r.1 == Some(c.db[CacheKey(key)].bytes)
      && r.0 == c.(stats := c.stats.(hits := c.stats.hits + 1))
    ensures !Servable(c.db, key, now) && loader.None? ==>
      && r.1 == None
      && r.0 == RecordMiss(c, key)
    ensures !Servable(c.db, key, now) && loader.Some? ==>
      && r.1 == loader
      && r.0 == Set(RecordMiss(c, key), key, loader.value, ttl, now)
    ensures r.0.defaultTtl == c.defaultTtl
    ensures Decodes(r.0.db)
    ensures Paired(c.db) ==> Paired(r.0.db)
  {
    Keyspaces();
    var ck := CacheKey(key);
    var mk := MetaKey(key);
    if ck in c.db && mk in c.db && now < c.db[mk].meta.expiresAt then
      (c.(stats := c.stats.(hits := c.stats.hits + 1)), Some(c.db[ck].bytes))
    else
      var missed := RecordMiss(c, key);
      match loader
      case None => (missed, None)
      case Some(v) => (Set(missed, key, v, ttl, now), Some(v))
  }

  /**
   `ttl or default_ttl` as `set` applies it: an explicit 0 writes exactly what
   an absent ttl writes, and any other ttl sets the expiry that many seconds
   after `now`.
   */
  lemma SetTtlFallback(c: Cache, key: string, value: Encoded, t: int, now: int)
    ensures Set(c, key, value, Some(0), now) == Set(c, key, value, None, now)
    ensures Set(c, key, value, None, now).db[MetaKey(key)].meta.ttl == c.defaultTtl
    ensures t != 0 ==> Set(c, key, value, Some(t), now).db[MetaKey(key)].meta.expiresAt == now + t
  {
  }

  /** Deleting twice leaves the store as deleting once; only the eviction counter moves again. */
  lemma DeleteIdempotent(c: Cache, key: string)
    ensures Delete(Delete(c, key), key).db == Delete(c, key).db
    ensures Delete(Delete(c, key), key).stats.evictions == c.stats.evictions + 2
  {
  }

  /**
   Round trip: right after `set`, a `get` at any time before the entry's
   expiry is a hit that returns the value written and changes nothing but the
   hit counter.
   */
  lemma SetThenGet(c: Cache, key: string, value: Encoded, ttl: Option<int>, now: int,
                   later: int, loader: Option<Encoded>, ttl2: Option<int>)
    requires Decodes(c.db)
    requires later < now + EffectiveTtl(ttl, c.defaultTtl)
    ensures var s := Set(c, key, value, ttl, now);
      Get(s, key, loader, ttl2, later) == (s.(stats := s.stats.(hits := s.stats.hits + 1)), Some(value))
  {
  }

  /**
   Once `ttl` seconds have passed since the write, a `get` without loader
   misses, removes both records and returns nothing.
   */
  lemma SetThenGetExpired(c: Cache, key: string, value: Encoded, ttl: Option<int>, now: int, later: int)
    requires Decodes(c.db)
    requires later >= now + EffectiveTtl(ttl, c.defaultTtl)
    ensures var s := Set(c, key, value, ttl, now);
      var r := Get(s, key, None, None, later);
      && r.1 == None
      && r.0.db == c.db - {CacheKey(key), MetaKey(key)}
      && r.0.stats == c.stats.(writes := c.stats.writes + 1, misses := c.stats.misses + 1)
  {
    var s := Set(c, key, value, ttl, now);
    assert s.db - {CacheKey(key), MetaKey(key)} == c.db - {CacheKey(key), MetaKey(key)};
  }

  /** The logical keys `clear_expired` collects from the visited metadata records, in scan order. */
  function CollectExpired(db: Db, visited: seq<string>, now: int): seq<string>
    requires forall i :: 0 <= i < |visited| ==> visited[i] in db && db[visited[i]].Metadata?
    decreases |visited|
  {
    if |visited| == 0 then []
    else
      var m := db[visited[0]].meta;
      (if now > m.expiresAt then [m.key] else []) + CollectExpired(db, visited[1..], now)
  }

  /** Both record keys of every logical key in `keys`. */
  function PairKeys(keys: set<string>): set<string>
  {
    (set k | k in keys :: CacheKey(k)) + (set k | k in keys :: MetaKey(k))
  }

  /** The sweep's batch: for each collected key, erase its value record, then its metadata record. */
  function PairErasures(keys: seq<string>): seq<Op<Record>>
    decreases |keys|
  {
    if |keys| == 0 then []
    else [Erase(CacheKey(keys[0])), Erase(MetaKey(keys[0]))] + PairErasures(keys[1..])
  }

  /** The logical keys whose metadata lies strictly past its expiry at `now`. */
  ghost function ExpiredAt(db: Db, now: int): set<string>
    requires Decodes(db)
  {
    set k | k in db && StartsWith(k, MetaPrefix) && now > db[k].meta.expiresAt :: k[|MetaPrefix|..]
  }

  lemma {:induction false} PairErasuresErase(keys: seq<string>)
    ensures forall i :: 0 <= i < |PairErasures(keys)| ==> PairErasures(keys)[i].Erase?
    ensures ErasedKeys(PairErasures(keys)) == PairKeys(set k | k in keys)
    decreases |keys|
  {
    if |keys| > 0 {
      PairErasuresErase(keys[1..]);
      var head: seq<Op<Record>> := [Erase(CacheKey(keys[0])), Erase(MetaKey(keys[0]))];
      var tail := PairErasures(keys[1..]);
      assert PairErasures(keys) == head + tail;
      ErasedKeysConcat(head, tail);
      assert ErasedKeys(head) == {CacheKey(keys[0]), MetaKey(keys[0])} by {
        assert head[0].key == CacheKey(keys[0]) && head[1].key == MetaKey(keys[0]);
      }
      assert (set k | k in keys) == {keys[0]} + (set k | k in keys[1..]);
    }
  }

  /**
   Under the pairing invariant the sweep collects, in increasing order and
   without repetition, exactly the logical keys whose visited metadata is
   strictly past expiry.
   */
  lemma {:induction false} CollectExpiredExact(db: Db, visited: seq<string>, now: int)
    requires Paired(db)
    requires StrictlySorted(visited)
    requires forall i :: 0 <= i < |visited| ==> visited[i] in db && StartsWith(visited[i], MetaPrefix)
    ensures StrictlySorted(CollectExpired(db, visited, now))
    ensures forall key :: key in CollectExpired(db, visited, now) <==>
      MetaKey(key) in visited && now > db[MetaKey(key)].meta.expiresAt
    decreases |visited|
  {
    Keyspaces();
    if |visited| > 0 {
      var rest := visited[1..];
      CollectExpiredExact(db, rest, now);
      var tail := CollectExpired(db, rest, now);
      var k0 := visited[0];
      MetaKeyOfSuffix(k0);
      var key0 := k0[|MetaPrefix|..];
      assert db[k0].meta.key == key0;
      assert visited == [k0] + rest;
      forall key | key in tail
        ensures Lt(key0, key)
      {
        var j :| 0 <= j < |rest| && rest[j] == MetaKey(key);
        assert visited[j + 1] == MetaKey(key);
        LtUnderPrefix(MetaPrefix, key0, key);
      }
      if now > db[k0].meta.expiresAt {
        assert CollectExpired(db, visited, now) == [key0] + tail;
        SortedPrepend(key0, tail);
      } else {
        assert CollectExpired(db, visited, now) == tail;
      }
    }
  }

  /**
   `clear_expired()`: scan the `meta:` records, collect the logical key of each
   one strictly past expiry (`now > expires_at`), erase both records of every
   collected key in one batch, and add the count to the eviction counter.
   Under the pairing invariant it removes exactly the expired pairs.
   */
  function ClearExpired(c: Cache, now: int): (r: (Cache, nat))
    requires Decodes(c.db)
    ensures Paired(c.db) ==> r.0.db == c.db - PairKeys(ExpiredAt(c.db, now))
    ensures Paired(c.db) ==> r.1 == |ExpiredAt(c.db, now)|
    ensures r.0.stats == c.stats.(evictions := c.stats.evictions + r.1)
    ensures r.0.defaultTtl == c.defaultTtl
    ensures r.0.db.Keys <= c.db.Keys
    ensures forall k :: k in r.0.db ==> r.0.db[k] == c.db[k]
    ensures Decodes(r.0.db)
    ensures Paired(c.db) ==> Paired(r.0.db)
  {
    var visited := PrefixScan(c.db, MetaPrefix);
    var expired := CollectExpired(c.db, visited, now);
    var removed := PairErasures(expired);
    PairErasuresErase(expired);
    ApplyErasures(c.db, removed);
    var r := if |expired| == 0 then (c, 0)
      else (c.(db := Apply(c.db, removed), stats := c.stats.(evictions := c.stats.evictions + |expired|)), |expired|);
    ClearExpiredCorrect(c.db, now, visited, expired);
    r
  }

  /** Removing both records of any set of logical keys keeps the pairing invariant. */
  lemma RemovingPairsKeepsPaired(db: Db, keys: set<string>)
    requires Paired(db)
    ensures Paired(db - PairKeys(keys))
  {
    Keyspaces();
    var r := db - PairKeys(keys);
    forall key
      ensures CacheKey(key) in r <==> MetaKey(key) in r
    {
      assert CacheKey(key) in PairKeys(keys) <==> key in keys;
      assert MetaKey(key) in PairKeys(keys) <==> key in keys;
    }
  }

  /** The proof obligations of `ClearExpired` under the pairing invariant. */
  lemma ClearExpiredCorrect(db: Db, now: int, visited: seq<string>, expired: seq<string>)
    requires Decodes(db)
    requires visited == PrefixScan(db, MetaPrefix)
    requires forall i :: 0 <= i < |visited| ==> visited[i] in db && db[visited[i]].Metadata?
    requires expired == CollectExpired(db, visited, now)
    ensures Paired(db) ==> (set k | k in expired) == ExpiredAt(db, now)
    ensures Paired(db) ==> |expired| == |ExpiredAt(db, now)|
    ensures Paired(db) ==> Paired(db - PairKeys(set k | k in expired))
  {
    if Paired(db) {
      CollectedAreExpired(db, now, visited, expired);
      SortedCardinality(expired);
      RemovingPairsKeepsPaired(db, set k | k in expired);
    }
  }

  lemma CollectedAreExpired(db: Db, now: int, visited: seq<string>, expired: seq<string>)
    requires Paired(db)
    requires visited == PrefixScan(db, MetaPrefix)
    requires forall i :: 0 <= i < |visited| ==> visited[i] in db && db[visited[i]].Metadata?
    requires expired == CollectExpired(db, visited, now)
    ensures StrictlySorted(expired)
    ensures (set k | k in expired) == ExpiredAt(db, now)
  {
    Keyspaces();
    CollectExpiredExact(db, visited, now);
    forall key | key in ExpiredAt(db, now)
      ensures key in expired
    {
      var k :| k in db && StartsWith(k, MetaPrefix) && now > db[k].meta.expiresAt && k[|MetaPrefix|..] == key;
      MetaKeyOfSuffix(k);
    }
    forall key | key in expired
      ensures key in ExpiredAt(db, now)
    {
      assert MetaKey(key)[|MetaPrefix|..] == key;
    }
  }

  /**
   Per entry: after the sweep an entry survives, with both records unchanged,
   exactly when its metadata is not strictly past expiry; keys outside the two
   namespaces are untouched.
   */
  lemma ClearExpiredPerEntry(c: Cache, now: int, key: string)
    requires Paired(c.db)
    requires MetaKey(key) in c.db
    ensures var r := ClearExpired(c, now).0;
      && (MetaKey(key) in r.db <==> c.db[MetaKey(key)].meta.expiresAt >= now)
      && (CacheKey(key) in r.db <==> c.db[MetaKey(key)].meta.expiresAt >= now)
      && (MetaKey(key) in r.db ==> r.db[MetaKey(key)] == c.db[MetaKey(key)] && r.db[CacheKey(key)] == c.db[CacheKey(key)])
  {
    Keyspaces();
    var expired := ExpiredAt(c.db, now);
    assert MetaKey(key)[|MetaPrefix|..] == key;
    if key in expired {
      var k :| k in c.db && StartsWith(k, MetaPrefix) && now > c.db[k].meta.expiresAt && k[|MetaPrefix|..] == key;
      MetaKeyOfSuffix(k);
    }
    assert key in expired <==> now > c.db[MetaKey(key)].meta.expiresAt;
    assert MetaKey(key) in PairKeys(expired) <==> key in expired;
    assert CacheKey(key) in PairKeys(expired) <==> key in expired;
  }

  /**
   The sweep never removes a key outside the two namespaces, whatever the
   metadata records name: its batch deletes only `cache:` and `meta:` keys.
   */
  lemma ClearExpiredKeepsOthers(c: Cache, now: int)
    requires Decodes(c.db)
    ensures var r := ClearExpired(c, now).0;
      forall k :: k in c.db && !StartsWith(k, CachePrefix) && !StartsWith(k, MetaPrefix) ==> k in r.db
  {
    var expired := CollectExpired(c.db, PrefixScan(c.db, MetaPrefix), now);
    PairErasuresErase(expired);
    ApplyErasures(c.db, PairErasures(expired));
    Keyspaces();
  }

  /**
   The two expiry paths disagree at the boundary: at `now == expires_at` a
   `get` already misses, while `clear_expired` still keeps the entry.
   */
  lemma ExpiryBoundary(c: Cache, key: string, now: int)
    requires Paired(c.db)
    requires MetaKey(key) in c.db && c.db[MetaKey(key)].meta.expiresAt == now
    ensures Get(c, key, None, None, now).1 == None
    ensures Get(c, key, None, None, now).0.stats.misses == c.stats.misses + 1
    ensures MetaKey(key) in ClearExpired(c, now).0.db && CacheKey(key) in ClearExpired(c, now).0.db
  {
    ClearExpiredPerEntry(c, now, key);
  }

  /** The logical keys of a `warm_cache` mapping. */
  function ItemKeys(items: seq<(string, Encoded)>): set<string>
  {
    set kv | kv in items :: kv.0
  }

  lemma ItemKeysCons(items: seq<(string, Encoded)>)
    requires |items| > 0
    ensures PairKeys(ItemKeys(items)) == {CacheKey(items[0].0), MetaKey(items[0].0)} + PairKeys(ItemKeys(items[1..]))
  {
    assert items == [items[0]] + items[1..];
    assert ItemKeys(items) == {items[0].0} + ItemKeys(items[1..]);
  }

  /** The keys of a mapping are unique, as those of a dictionary are. */
  predicate DistinctKeys(items: seq<(string, Encoded)>)
  {
    forall i, j :: 0 <= i < j < |items| ==> items[i].0 != items[j].0
  }

  /**
   `set` applied to each pair in turn with one shared `now` and `ttl`: the
   reference behaviour `warm_cache` is measured against.
   */
  function SetEach(c: Cache, items: seq<(string, Encoded)>, ttl: Option<int>, now: int): (r: Cache)
    ensures r.stats == c.stats.(writes := c.stats.writes + |items|)
    ensures r.defaultTtl == c.defaultTtl
    ensures Decodes(c.db) ==> Decodes(r.db)
    ensures Paired(c.db) ==> Paired(r.db)
    decreases |items|
  {
    if |items| == 0 then c
    else SetEach(Set(c, items[0].0, items[0].1, ttl, now), items[1..], ttl, now)
  }

  lemma SetEachUnfold(c: Cache, items: seq<(string, Encoded)>, ttl: Option<int>, now: int)
    requires |items| > 0
    ensures SetEach(c, items, ttl, now) == SetEach(Set(c, items[0].0, items[0].1, ttl, now), items[1..], ttl, now)
  {
  }

  /** `set` on each pair writes the records of the mapping's keys and leaves every other key as it was. */
  lemma {:induction false} SetEachFrame(c: Cache, items: seq<(string, Encoded)>, ttl: Option<int>, now: int)
    ensures SetEach(c, items, ttl, now).db.Keys == c.db.Keys + PairKeys(ItemKeys(items))
    ensures forall k :: k in c.db && k !in PairKeys(ItemKeys(items)) ==> SetEach(c, items, ttl, now).db[k] == c.db[k]
    decreases |items|
  {
    if |items| > 0 {
      var c1 := Set(c, items[0].0, items[0].1, ttl, now);
      SetEachFrame(c1, items[1..], ttl, now);
      ItemKeysCons(items);
    }
  }

  /** The batch of `warm_cache`: the two puts of every pair, in the mapping's order. */
  function WarmPuts(items: seq<(string, Encoded)>, now: int, ttl: int): seq<Op<Record>>
    decreases |items|
  {
    if |items| == 0 then []
    else EntryPuts(items[0].0, items[0].1, now, ttl) + WarmPuts(items[1..], now, ttl)
  }

  /** One batch of all the puts writes the same store as `set` on each pair in turn. */
  lemma {:induction false} WarmPutsAreSets(c: Cache, items: seq<(string, Encoded)>, ttl: Option<int>, now: int)
    ensures Apply(c.db, WarmPuts(items, now, EffectiveTtl(ttl, c.defaultTtl))) == SetEach(c, items, ttl, now).db
    decreases |items|
  {
    if |items| > 0 {
      var t := EffectiveTtl(ttl, c.defaultTtl);
      var head := EntryPuts(items[0].0, items[0].1, now, t);
      ApplyConcat(c.db, head, WarmPuts(items[1..], now, t));
      ApplyPair(c.db, head[0], head[1]);
      var c1 := Set(c, items[0].0, items[0].1, ttl, now);
      Keyspaces();
      assert Apply(c.db, head) == c1.db;
      WarmPutsAreSets(c1, items[1..], ttl, now);
    }
  }

  /**
   `warm_cache(mapping, ttl)`: one batch writes both records of every pair,
   with one `now` for the whole call and `ttl` defaulted as in `set`; the
   write counter grows by the size of the mapping, which is returned.
   */
  function WarmCache(c: Cache, items: seq<(string, Encoded)>, ttl: Option<int>, now: int): (r: (Cache, nat))
    ensures r.1 == |items|
    ensures r.0.stats == c.stats.(writes := c.stats.writes + |items|)
    ensures r.0.defaultTtl == c.defaultTtl
    ensures Decodes(c.db) ==> Decodes(r.0.db)
    ensures Paired(c.db) ==> Paired(r.0.db)
  {
    var t := EffectiveTtl(ttl, c.defaultTtl);
    WarmPutsAreSets(c, items, ttl, now);
    (c.(db := Apply(c.db, WarmPuts(items, now, t)), stats := c.stats.(writes := c.stats.writes + |items|)), |items|)
  }

  /** `warm_cache` leaves the cache exactly as `set` on each pair in turn would. */
  lemma WarmCacheIsSetEach(c: Cache, items: seq<(string, Encoded)>, ttl: Option<int>, now: int)
    ensures WarmCache(c, items, ttl, now).0 == SetEach(c, items, ttl, now)
  {
    WarmPutsAreSets(c, items, ttl, now);
  }

  /** `warm_cache` applies `ttl or default_ttl` too: an explicit 0 warms exactly as an absent ttl does. */
  lemma WarmTtlFallback(c: Cache, items: seq<(string, Encoded)>, now: int)
    ensures WarmCache(c, items, Some(0), now) == WarmCache(c, items, None, now)
  {
  }

  /** `warm_cache` writes the records of the mapping's keys and leaves every other key as it was. */
  lemma WarmCacheFrame(c: Cache, items: seq<(string, Encoded)>, ttl: Option<int>, now: int)
    ensures WarmCache(c, items, ttl, now).0.db.Keys == c.db.Keys + PairKeys(ItemKeys(items))
    ensures forall k :: k in c.db && k !in PairKeys(ItemKeys(items)) ==> WarmCache(c, items, ttl, now).0.db[k] == c.db[k]
  {
    WarmCacheIsSetEach(c, items, ttl, now);
    SetEachFrame(c, items, ttl, now);
  }

  /** The records of a logical key outside `keys` are not among the pair keys of `keys`. */
  lemma OutsidePairKeys(key: string, keys: set<string>)
    requires key !in keys
    ensures CacheKey(key) !in PairKeys(keys) && MetaKey(key) !in PairKeys(keys)
  {
    Keyspaces();
  }

  lemma DistinctKeysTail(items: seq<(string, Encoded)>)
    requires DistinctKeys(items) && |items| > 0
    ensures DistinctKeys(items[1..])
    ensures items[0].0 !in ItemKeys(items[1..])
  {
    forall i, j | 0 <= i < j < |items[1..]|
      ensures items[1..][i].0 != items[1..][j].0
    {
      assert items[1..][i] == items[i + 1] && items[1..][j] == items[j + 1];
    }
  }

  /** After `set` on each pair of a mapping with unique keys, every pair's records hold what its `set` wrote. */
  lemma {:induction false} SetEachStores(c: Cache, items: seq<(string, Encoded)>, ttl: Option<int>, now: int, i: nat)
    requires DistinctKeys(items)
    requires i < |items|
    ensures var r := SetEach(c, items, ttl, now);
      && CacheKey(items[i].0) in r.db && r.db[CacheKey(items[i].0)] == Value(items[i].1)
      && MetaKey(items[i].0) in r.db && r.db[MetaKey(items[i].0)] == Metadata(MetaFor(items[i].0, items[i].1, now, EffectiveTtl(ttl, c.defaultTtl)))
    decreases |items|
  {
    var c1 := Set(c, items[0].0, items[0].1, ttl, now);
    var rest := items[1..];
    SetEachUnfold(c, items, ttl, now);
    DistinctKeysTail(items);
    if i == 0 {
      var k0 := items[0].0;
      OutsidePairKeys(k0, ItemKeys(rest));
      SetEachFrame(c1, rest, ttl, now);
    } else {
      assert rest[i - 1] == items[i];
      SetEachStores(c1, rest, ttl, now, i - 1);
    }
  }

  /** After warming, every key of the mapping can be served until the shared expiry. */
  lemma WarmCacheServes(c: Cache, items: seq<(string, Encoded)>, ttl: Option<int>, now: int, i: nat, later: int)
    requires DistinctKeys(items)
    requires i < |items|
    requires later < now + EffectiveTtl(ttl, c.defaultTtl)
    ensures var w := WarmCache(c, items, ttl, now).0;
      Servable(w.db, items[i].0, later) && w.db[CacheKey(items[i].0)] == Value(items[i].1)
  {
    WarmCacheIsSetEach(c, items, ttl, now);
    SetEachStores(c, items, ttl, now, i);
  }

  /** A `get` of a servable key is a hit returning the stored value. */
  lemma GetServable(c: Cache, key: string, v: Encoded, loader: Option<Encoded>, ttl: Option<int>, now: int)
    requires Decodes(c.db)
    requires Servable(c.db, key, now) && c.db[CacheKey(key)] == Value(v)
    ensures Get(c, key, loader, ttl, now) == (c.(stats := c.stats.(hits := c.stats.hits + 1)), Some(v))
  {
  }

  /**
   After warming, a `get` of any key of the mapping before the shared expiry
   is a hit that returns that key's value.
   */
  lemma WarmCacheThenGet(c: Cache, items: seq<(string, Encoded)>, ttl: Option<int>, now: int,
                         i: nat, later: int, loader: Option<Encoded>, ttl2: Option<int>)
    requires Decodes(c.db)
    requires DistinctKeys(items)
    requires i < |items|
    requires later < now + EffectiveTtl(ttl, c.defaultTtl)
    ensures var w := WarmCache(c, items, ttl, now).0;
      Get(w, items[i].0, loader, ttl2, later) == (w.(stats := w.stats.(hits := w.stats.hits + 1)), Some(items[i].1))
  {
    var w := WarmCache(c, items, ttl, now).0;
    WarmCacheServes(c, items, ttl, now, i, later);
    GetServable(w, items[i].0, items[i].1, loader, ttl2, later);
  }
}
