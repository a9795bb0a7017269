/**
 The statistics report of the cache layer: the four counters, the hit rate,
 and a census of the stored entries taken by a prefix scan over the metadata
 namespace.
 */
module CacheStats {
  import opened Lex
  import opened Store
  import opened CacheLayer

  /** What `get_stats` reports, less the pass-through figures of the store itself. */
  datatype Snapshot = Snapshot(
    cacheHits: nat,
    cacheMisses: nat,
    hitRatePercent: real,
    totalWrites: nat,
    totalEvictions: nat,
    currentEntries: nat,
    totalCachedSize: nat)

  /** Hits as a percentage of all requests, and 0 before the first request. */
  function HitRate(s: Counters): (r: real)
    ensures s.hits + s.misses == 0 ==> r == 0.0
    ensures 0.0 <= r <= 100.0
    ensures r == 0.0 <==> s.hits == 0
    ensures r == 100.0 <==> s.hits > 0 && s.misses == 0
  {
    var total := s.hits + s.misses;
    if total > 0 then
      var q := s.hits as real / total as real;
      assert q * total as real == s.hits as real;
      assert q <= 1.0;
      assert q == 1.0 <==> s.misses == 0;
      q * 100.0
    else 0.0
  }

  /**
   The `size_bytes` the metadata record under `k` reports. A key whose record
   is not metadata counts nothing; under `Decodes` every `meta:` key holds metadata.
   */
  function SizeOf(db: Db, k: string): nat
  {
    if k in db && db[k].Metadata? then db[k].meta.sizeBytes else 0
  }

  /** The sizes reported by the metadata records under the keys `ks`, added up. */
  function SizeSum(db: Db, ks: set<string>): nat
    decreases |ks|
  {
    if ks == {} then 0
    else
      var k := Min(ks);
      SizeOf(db, k) + SizeSum(db, ks - {k})
  }

  /** The sum does not depend on the order of summation: any key can be taken out first. */
  lemma {:induction false} SizeSumPick(db: Db, ks: set<string>, x: string)
    requires x in ks
    ensures SizeSum(db, ks) == SizeOf(db, x) + SizeSum(db, ks - {x})
    decreases |ks|
  {
    var y := Min(ks);
    if x != y {
      SizeSumPick(db, ks - {y}, x);
      SizeSumPick(db, ks - {x}, y);
      assert ks - {y} - {x} == ks - {x} - {y};
    }
  }

  /** The sum reads only the sizes of its own keys. */
  lemma {:induction false} SizeSumFrame(db1: Db, db2: Db, ks: set<string>)
    requires forall k :: k in ks ==> SizeOf(db1, k) == SizeOf(db2, k)
    ensures SizeSum(db1, ks) == SizeSum(db2, ks)
    decreases |ks|
  {
    if ks != {} {
      SizeSumFrame(db1, db2, ks - {Min(ks)});
    }
  }

  /** One more key of a strictly sorted sequence adds exactly its own size. */
  lemma SizeSumExtend(db: Db, s: seq<string>, i: nat)
    requires StrictlySorted(s)
    requires i < |s|
    ensures SizeSum(db, Elems(s[..i + 1])) == SizeSum(db, Elems(s[..i])) + SizeOf(db, s[i])
  {
    var seen := Elems(s[..i]);
    assert s[..i + 1] == s[..i] + [s[i]];
    assert Elems(s[..i + 1]) == seen + {s[i]};
    assert s[i] !in seen;
    SizeSumPick(db, seen + {s[i]}, s[i]);
    assert seen + {s[i]} - {s[i]} == seen;
  }

  /**
   The number of stored entries: one metadata record per entry, expired
   entries included until a sweep removes them.
   */
  function Entries(db: Db): nat
  {
    |KeysWithPrefix(db, MetaPrefix)|
  }

  /** The sizes of all stored entries, expired or not, added up. */
  function TotalSize(db: Db): nat
  {
    SizeSum(db, KeysWithPrefix(db, MetaPrefix))
  }

  /**
   `get_stats`: copies the counters, computes the hit rate, and walks the
   metadata records with a scan from `meta:` that breaks at the first key
   outside the namespace, counting them and adding up their sizes. The census
   is exact: it counts every stored entry, expired or not, and nothing else.
   */
  method GetStats(c: Cache) returns (s: Snapshot)
    ensures s.cacheHits == c.stats.hits && s.cacheMisses == c.stats.misses
    ensures s.totalWrites == c.stats.writes && s.totalEvictions == c.stats.evictions
    ensures s.hitRatePercent == HitRate(c.stats)
    ensures s.currentEntries == Entries(c.db)
    ensures s.totalCachedSize == TotalSize(c.db)
  {
    var keys := Scan(c.db, MetaPrefix);
    var total: nat := 0;
    var i := 0;
    while i < |keys|
      invariant 0 <= i <= |keys|
      invariant forall j :: 0 <= j < i ==> StartsWith(keys[j], MetaPrefix)
      invariant total == SizeSum(c.db, Elems(keys[..i]))
    {
      var k := keys[i];
      if !StartsWith(k, MetaPrefix) {
        break;
      }
      SizeSumExtend(c.db, keys, i);
      total := total + SizeOf(c.db, k);
      i := i + 1;
    }
    CensusStop(c.db, i);
    assert total == TotalSize(c.db);
    s := Snapshot(c.stats.hits, c.stats.misses, HitRate(c.stats), c.stats.writes, c.stats.evictions, i, total);
  }

  /** Where the census loop stops it has seen every `meta:` key and nothing else, one per step. */
  lemma CensusStop(db: Db, i: nat)
    requires i <= |Scan(db, MetaPrefix)|
    requires forall j :: 0 <= j < i ==> StartsWith(Scan(db, MetaPrefix)[j], MetaPrefix)
    requires i == |Scan(db, MetaPrefix)| || !StartsWith(Scan(db, MetaPrefix)[i], MetaPrefix)
    ensures Elems(Scan(db, MetaPrefix)[..i]) == KeysWithPrefix(db, MetaPrefix)
    ensures i == Entries(db)
  {
    var keys := Scan(db, MetaPrefix);
    ScanStopsAtPrefixEnd(db, MetaPrefix, i);
    assert Elems(keys[..i]) == KeysWithPrefix(db, MetaPrefix);
    SortedPrefixCardinality(keys, i);
  }

  /** The census keys after `set`: `meta:K` joins them, and the other census entries keep their sizes. */
  lemma MetaKeysAfterSet(c: Cache, key: string, value: Encoded, ttl: Option<int>, now: int)
    ensures var r := Set(c, key, value, ttl, now);
      && KeysWithPrefix(r.db, MetaPrefix) == KeysWithPrefix(c.db, MetaPrefix) + {MetaKey(key)}
      && SizeOf(r.db, MetaKey(key)) == |value|
      && forall k :: k in KeysWithPrefix(c.db, MetaPrefix) - {MetaKey(key)} ==> SizeOf(r.db, k) == SizeOf(c.db, k)
  {
    Keyspaces();
  }

  /** The census keys after `delete`: `meta:K` leaves them, and the others keep their sizes. */
  lemma MetaKeysAfterDelete(c: Cache, key: string)
    ensures var r := Delete(c, key);
      && KeysWithPrefix(r.db, MetaPrefix) == KeysWithPrefix(c.db, MetaPrefix) - {MetaKey(key)}
      && forall k :: k in KeysWithPrefix(c.db, MetaPrefix) - {MetaKey(key)} ==> SizeOf(r.db, k) == SizeOf(c.db, k)
  {
    Keyspaces();
  }

  /** The census arithmetic of a write that adds or replaces the census key `mk`. */
  lemma CensusAfterPut(db1: Db, db2: Db, mk: string, size: nat)
    requires KeysWithPrefix(db2, MetaPrefix) == KeysWithPrefix(db1, MetaPrefix) + {mk}
    requires SizeOf(db2, mk) == size
    requires forall k :: k in KeysWithPrefix(db1, MetaPrefix) - {mk} ==> SizeOf(db2, k) == SizeOf(db1, k)
    ensures Entries(db2) == Entries(db1) + (if mk in KeysWithPrefix(db1, MetaPrefix) then 0 else 1)
    ensures TotalSize(db2) == TotalSize(db1) - (if mk in KeysWithPrefix(db1, MetaPrefix) then SizeOf(db1, mk) else 0) + size
  {
    var before := KeysWithPrefix(db1, MetaPrefix);
    SizeSumPick(db2, before + {mk}, mk);
    assert before + {mk} - {mk} == before - {mk};
    SizeSumFrame(db2, db1, before - {mk});
    if mk in before {
      SizeSumPick(db1, before, mk);
    } else {
      assert before - {mk} == before;
    }
  }

  /**
   How `set` moves the census: a new key adds one entry, and the total size
   trades the old entry's size for the new value's.
   */
  lemma SetUpdatesTotals(c: Cache, key: string, value: Encoded, ttl: Option<int>, now: int)
    ensures var r := Set(c, key, value, ttl, now);
      && Entries(r.db) == Entries(c.db) + (if MetaKey(key) in c.db then 0 else 1)
      && TotalSize(r.db) == TotalSize(c.db) - SizeOf(c.db, MetaKey(key)) + |value|
  {
    MetaKeysAfterSet(c, key, value, ttl, now);
    CensusAfterPut(c.db, Set(c, key, value, ttl, now).db, MetaKey(key), |value|);
    assert MetaKey(key) in c.db <==> MetaKey(key) in KeysWithPrefix(c.db, MetaPrefix) by {
      Keyspaces();
    }
  }

  /** How `delete` moves the census: an existing entry and its size leave it. */
  lemma DeleteUpdatesTotals(c: Cache, key: string)
    ensures var r := Delete(c, key);
      && Entries(r.db) == Entries(c.db) - (if MetaKey(key) in c.db then 1 else 0)
      && TotalSize(r.db) == TotalSize(c.db) - SizeOf(c.db, MetaKey(key))
  {
    var r := Delete(c, key);
    var mk := MetaKey(key);
    var before := KeysWithPrefix(c.db, MetaPrefix);
    MetaKeysAfterDelete(c, key);
    SizeSumFrame(r.db, c.db, before - {mk});
    assert mk in c.db <==> mk in before by {
      Keyspaces();
    }
    if mk in before {
      SizeSumPick(c.db, before, mk);
    } else {
      assert before - {mk} == before;
    }
  }
}
