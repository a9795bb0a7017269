/**
 Sliding-expiration sessions. Each session is one record of the ordered store
 under `session:S`; a session stays alive while it is read at least once every
 `ttlSeconds`, and every successful read moves its last-access time forward.

 Every operation is a pure transition from one `Sessions` state to the next;
 the wall clock is the parameter `now` (whole seconds) and the fresh session
 id is a parameter as well.
 */
module SessionStore {
  import opened Lex
  import opened Store

  const SessionPrefix: string := "session:"

  function SessionKey(id: string): string
  {
    SessionPrefix + id
  }

  /** The application data of a session: names to serialized JSON values. */
  type Payload = map<string, Encoded>

  datatype Session = Session(sessionId: string, userId: string, createdAt: int, lastAccessed: int, data: Payload)

  /** What a record of the store decodes to; keys outside `session:` hold anything. */
  datatype Record = SessionRecord(session: Session) | Opaque(bytes: Encoded)

  type Db = map<string, Record>

  datatype Sessions = Sessions(db: Db, ttlSeconds: int)

  /** Every record under `session:` decodes as a session. */
  ghost predicate Decodes(db: Db)
  {
    forall k :: k in db && StartsWith(k, SessionPrefix) ==> db[k].SessionRecord?
  }

  /** Decodes, and every session is filed under its own id. */
  ghost predicate Consistent(db: Db)
  {
    forall k :: k in db && StartsWith(k, SessionPrefix) ==>
      db[k].SessionRecord? && SessionKey(db[k].session.sessionId) == k
  }

  /** Session keys carry the prefix, and distinct ids have distinct keys. */
  lemma SessionKeys()
    ensures forall id :: StartsWith(SessionKey(id), SessionPrefix)
    ensures forall a, b :: SessionKey(a) == SessionKey(b) ==> a == b
  {
    forall id
      ensures StartsWith(SessionKey(id), SessionPrefix)
    {
      assert SessionKey(id)[..|SessionPrefix|] == SessionPrefix;
    }
    forall a, b | SessionKey(a) == SessionKey(b)
      ensures a == b
    {
      assert a == SessionKey(a)[|SessionPrefix|..];
      assert b == SessionKey(b)[|SessionPrefix|..];
    }
  }

  /** A session is expired once strictly more than `ttl` seconds have passed since its last access. */
  predicate Expired(s: Session, now: int, ttl: int)
  {
    now - s.lastAccessed > ttl
  }

  /**
   `create_session(user_id, data)` under the fresh id `id`: one record whose
   two timestamps are both `now` and whose data is `data`, or empty when
   `data` is absent (an empty mapping is empty either way).
   */
  function CreateSession(s: Sessions, id: string, userId: string, data: Option<Payload>, now: int): (r: (Sessions, string))
    ensures r.1 == id
    ensures r.0.db.Keys == s.db.Keys + {SessionKey(id)}
    ensures r.0.db[SessionKey(id)] == SessionRecord(Session(id, userId, now, now, data.GetOr(map[])))
    ensures forall k :: k in s.db && k != SessionKey(id) ==> r.0.db[k] == s.db[k]
    ensures r.0.ttlSeconds == s.ttlSeconds
    ensures Decodes(s.db) ==> Decodes(r.0.db)
    ensures Consistent(s.db) ==> Consistent(r.0.db)
  {
    var key := SessionKey(id);
    var session := Session(id, userId, now, now, data.GetOr(map[]));
    (s.(db := s.db[key := SessionRecord(session)]), id)
  }

  /** A fresh id adds exactly one record to the store. */
  lemma CreateAddsOne(s: Sessions, id: string, userId: string, data: Option<Payload>, now: int)
    requires SessionKey(id) !in s.db
    ensures |CreateSession(s, id, userId, data, now).0.db| == |s.db| + 1
  {
    var r := CreateSession(s, id, userId, data, now).0;
    assert r.db.Keys == s.db.Keys + {SessionKey(id)};
  }

  /** `delete_session(id)`: removes `session:id` and nothing else; a missing session is no error. */
  function DeleteSession(s: Sessions, id: string): (r: Sessions)
    ensures r.db.Keys == s.db.Keys - {SessionKey(id)}
    ensures forall k :: k in r.db ==> r.db[k] == s.db[k]
    ensures r.ttlSeconds == s.ttlSeconds
    ensures Decodes(s.db) ==> Decodes(r.db)
    ensures Consistent(s.db) ==> Consistent(r.db)
  {
    s.(db := s.db - {SessionKey(id)})
  }

  /**
   `get_session(id)`: a missing session reads as nothing; an expired one is
   deleted and reads as nothing; a live one is rewritten with its last-access
   time moved to `now` and returned as rewritten.
   */
  function GetSession(s: Sessions, id: string, now: int): (r: (Sessions, Option<Session>))
    requires Decodes(s.db)
    ensures SessionKey(id) !in s.db ==> r == (s, None)
    ensures SessionKey(id) in s.db && Expired(s.db[SessionKey(id)].session, now, s.ttlSeconds) ==>
      r == (DeleteSession(s, id), None)
    ensures SessionKey(id) in s.db && !Expired(s.db[SessionKey(id)].session, now, s.ttlSeconds) ==>
      && r.1 == Some(s.db[SessionKey(id)].session.(lastAccessed := now))
      && r.0.db == s.db[SessionKey(id) := SessionRecord(r.1.value)]
    ensures r.0.ttlSeconds == s.ttlSeconds
    ensures Decodes(r.0.db)
    ensures Consistent(s.db) ==> Consistent(r.0.db)
  {
    var key := SessionKey(id);
    SessionKeys();
    if key !in s.db then (s, None)
    else
      var session := s.db[key].session;
      if Expired(session, now, s.ttlSeconds) then (DeleteSession(s, id), None)
      else
        var refreshed := session.(lastAccessed := now);
        (s.(db := s.db[key := SessionRecord(refreshed)]), Some(refreshed))
  }

  /**
   `update_session(id, patch)`: reads the session as `get_session` does; when
   that yields nothing, reports failure having written nothing more; otherwise
   merges `patch` over the session's data key by key, stamps the access time
   and writes the session back.
   */
  function UpdateSession(s: Sessions, id: string, patch: Payload, now: int): (r: (Sessions, bool))
    requires Decodes(s.db)
    ensures r.1 <==> GetSession(s, id, now).1.Some?
    ensures !r.1 ==> r.0 == GetSession(s, id, now).0
    ensures r.1 ==>
      && SessionKey(id) in r.0.db && r.0.db[SessionKey(id)].SessionRecord?
      && var before := s.db[SessionKey(id)].session;
      && var after := r.0.db[SessionKey(id)].session;
      && after == before.(lastAccessed := now, data := after.data)
      && after.data.Keys == before.data.Keys + patch.Keys
      && (forall name :: name in patch ==> after.data[name] == patch[name])
      && (forall name :: name in before.data && name !in patch ==> after.data[name] == before.data[name])
    ensures r.1 ==> forall k :: k in s.db && k != SessionKey(id) ==> k in r.0.db && r.0.db[k] == s.db[k]
    ensures r.1 ==> r.0.db.Keys == s.db.Keys
    ensures r.0.ttlSeconds == s.ttlSeconds
    ensures Decodes(r.0.db)
    ensures Consistent(s.db) ==> Consistent(r.0.db)
  {
    var (s1, found) := GetSession(s, id, now);
    match found
    case None => (s1, false)
    case Some(session) =>
      var merged := session.(data := session.data + patch, lastAccessed := now);
      (s1.(db := s1.db[SessionKey(id) := SessionRecord(merged)]), true)
  }

  /** Deleting a session twice leaves the store as deleting it once. */
  lemma DeleteSessionIdempotent(s: Sessions, id: string)
    ensures DeleteSession(DeleteSession(s, id), id) == DeleteSession(s, id)
  {
  }

  /**
   Round trip: a session just created reads back, at any time within the
   time-to-live, as created except for the access time, which is that of the read.
   */
  lemma CreateThenGet(s: Sessions, id: string, userId: string, data: Option<Payload>, now: int, later: int)
    requires Decodes(s.db)
    requires later - now <= s.ttlSeconds
    ensures var c := CreateSession(s, id, userId, data, now).0;
      GetSession(c, id, later).1 == Some(Session(id, userId, now, later, data.GetOr(map[])))
  {
    var c := CreateSession(s, id, userId, data, now).0;
    assert c.db[SessionKey(id)].session == Session(id, userId, now, now, data.GetOr(map[]));
  }

  /** A live read never moves the access time backwards while the clock does not. */
  lemma RefreshNeverRewinds(s: Sessions, id: string, now: int)
    requires Decodes(s.db)
    requires SessionKey(id) in s.db && s.db[SessionKey(id)].session.lastAccessed <= now
    ensures var r := GetSession(s, id, now).0;
      SessionKey(id) in r.db ==> r.db[SessionKey(id)].session.lastAccessed >= s.db[SessionKey(id)].session.lastAccessed
  {
    SessionKeys();
  }

  /** Reads of session `id` at the successive times `times`: the final state and each read's outcome. */
  function ReadEach(s: Sessions, id: string, times: seq<int>): (r: (Sessions, seq<Option<Session>>))
    requires Decodes(s.db)
    ensures |r.1| == |times|
    ensures Decodes(r.0.db)
    ensures r.0.ttlSeconds == s.ttlSeconds
    decreases |times|
  {
    if |times| == 0 then (s, [])
    else
      var (s1, got) := GetSession(s, id, times[0]);
      var (s2, rest) := ReadEach(s1, id, times[1..]);
      (s2, [got] + rest)
  }

  /**
   Sliding expiry: as long as the first read comes within the time-to-live of
   the last access and each later read within the time-to-live of the one
   before, every read finds the session, and it stays stored with the time of
   the last read as its access time.
   */
  lemma {:induction false} ReadsKeepSessionAlive(s: Sessions, id: string, times: seq<int>)
    requires Decodes(s.db)
    requires SessionKey(id) in s.db
    requires |times| > 0 && times[0] - s.db[SessionKey(id)].session.lastAccessed <= s.ttlSeconds
    requires forall j :: 0 < j < |times| ==> times[j] - times[j - 1] <= s.ttlSeconds
    ensures var r := ReadEach(s, id, times);
      && (forall j :: 0 <= j < |times| ==> r.1[j].Some? && r.1[j].value.lastAccessed == times[j])
      && SessionKey(id) in r.0.db
      && r.0.db[SessionKey(id)].session.lastAccessed == times[|times| - 1]
    decreases |times|
  {
    var (s1, got) := GetSession(s, id, times[0]);
    assert got.Some? && got.value.lastAccessed == times[0];
    assert s1.db[SessionKey(id)].session.lastAccessed == times[0];
    var (s2, rest) := ReadEach(s1, id, times[1..]);
    if |times| > 1 {
      assert times[1..][0] - times[0] <= s1.ttlSeconds;
      forall j | 0 < j < |times[1..]|
        ensures times[1..][j] - times[1..][j - 1] <= s1.ttlSeconds
      {
        assert times[1..][j] == times[j + 1] && times[1..][j - 1] == times[j];
      }
      ReadsKeepSessionAlive(s1, id, times[1..]);
      forall j | 0 <= j < |times|
        ensures ReadEach(s, id, times).1[j].Some? && ReadEach(s, id, times).1[j].value.lastAccessed == times[j]
      {
        if j > 0 {
          assert ReadEach(s, id, times).1[j] == rest[j - 1];
          assert times[1..][j - 1] == times[j];
        }
      }
    }
  }

  /** Which sessions a scan picks out: those of one user, or those expired at a given time. */
  datatype Selector = OwnedBy(userId: string) | ExpiredAsOf(now: int, ttlSeconds: int)

  predicate Selects(f: Selector, s: Session)
  {
    match f
    case OwnedBy(u) => s.userId == u
    case ExpiredAsOf(now, ttl) => Expired(s, now, ttl)
  }

  /** The session record under `k`, when `f` picks it. */
  predicate Picks(db: Db, k: string, f: Selector)
  {
    k in db && db[k].SessionRecord? && Selects(f, db[k].session)
  }

  /** The `session_id` fields of the picked records among `keys`, in the order of `keys`. */
  function Selected(db: Db, keys: seq<string>, f: Selector): seq<string>
    decreases |keys|
  {
    if |keys| == 0 then []
    else
      var last := keys[|keys| - 1];
      Selected(db, keys[..|keys| - 1], f) + (if Picks(db, last, f) then [db[last].session.sessionId] else [])
  }

  /** The keys among `keys` whose records are picked. */
  function SelectedKeys(db: Db, keys: seq<string>, f: Selector): set<string>
  {
    set k | k in keys && Picks(db, k, f)
  }

  lemma SelectedSnoc(db: Db, keys: seq<string>, f: Selector, i: nat)
    requires i < |keys|
    ensures Selected(db, keys[..i + 1], f) ==
      Selected(db, keys[..i], f) + (if Picks(db, keys[i], f) then [db[keys[i]].session.sessionId] else [])
  {
    assert keys[..i + 1][..i] == keys[..i];
  }

  /** Over distinct keys, one id is collected per picked key. */
  lemma {:induction false} SelectedCount(db: Db, keys: seq<string>, f: Selector)
    requires StrictlySorted(keys)
    ensures |Selected(db, keys, f)| == |SelectedKeys(db, keys, f)|
    decreases |keys|
  {
    if |keys| > 0 {
      var n := |keys| - 1;
      var init := keys[..n];
      assert StrictlySorted(init);
      SelectedCount(db, init, f);
      SortedFresh(keys, n);
      SelectedKeysSnoc(db, keys, f);
    }
  }

  lemma SelectedKeysSnoc(db: Db, keys: seq<string>, f: Selector)
    requires |keys| > 0
    ensures var n := |keys| - 1;
      SelectedKeys(db, keys, f) == SelectedKeys(db, keys[..n], f) + (if Picks(db, keys[n], f) then {keys[n]} else {})
  {
    var n := |keys| - 1;
    assert keys == keys[..n] + [keys[n]];
  }

  /**
   Over session keys of a consistent store, an id is collected exactly when
   its session's key is among the keys and picked.
   */
  lemma {:induction false} SelectedMembers(db: Db, keys: seq<string>, f: Selector)
    requires Consistent(db)
    requires forall j :: 0 <= j < |keys| ==> StartsWith(keys[j], SessionPrefix)
    ensures forall id :: id in Selected(db, keys, f) <==> SessionKey(id) in SelectedKeys(db, keys, f)
    decreases |keys|
  {
    if |keys| > 0 {
      var n := |keys| - 1;
      SelectedMembers(db, keys[..n], f);
      SessionKeys();
      forall id
        ensures id in Selected(db, keys, f) <==> SessionKey(id) in SelectedKeys(db, keys, f)
      {
        assert keys == keys[..n] + [keys[n]];
        if Picks(db, keys[n], f) {
          assert SessionKey(db[keys[n]].session.sessionId) == keys[n];
        }
      }
    }
  }

  /** Over a strictly sorted run of session keys of a consistent store, the ids come out strictly sorted. */
  lemma {:induction false} SelectedSorted(db: Db, keys: seq<string>, f: Selector)
    requires Consistent(db)
    requires StrictlySorted(keys)
    requires forall j :: 0 <= j < |keys| ==> StartsWith(keys[j], SessionPrefix)
    ensures StrictlySorted(Selected(db, keys, f))
    decreases |keys|
  {
    if |keys| > 0 {
      var n := |keys| - 1;
      var init := keys[..n];
      SelectedSorted(db, init, f);
      var head := Selected(db, init, f);
      if Picks(db, keys[n], f) {
        var id := db[keys[n]].session.sessionId;
        SelectedMembers(db, init, f);
        forall x | x in head
          ensures Lt(x, id)
        {
          var j :| 0 <= j < |init| && init[j] == SessionKey(x);
          assert keys[j] == SessionKey(x);
          assert Lt(SessionPrefix + x, SessionPrefix + id);
          LtUnderPrefix(SessionPrefix, x, id);
        }
        var all := head + [id];
        forall a, b | 0 <= a < b < |all|
          ensures Lt(all[a], all[b])
        {
          if b == |head| {
            assert all[a] in head;
          }
        }
      }
    }
  }

  /** The session keys whose sessions `f` picks. */
  function PickedSessionKeys(db: Db, f: Selector): set<string>
  {
    set k | k in db && StartsWith(k, SessionPrefix) && Picks(db, k, f)
  }

  /** Scanning the session namespace picks out exactly the picked session keys. */
  lemma PrefixScanPicks(db: Db, f: Selector)
    ensures SelectedKeys(db, PrefixScan(db, SessionPrefix), f) == PickedSessionKeys(db, f)
  {
  }

  /**
   Walks a scan from `session:` up to the first key outside the namespace,
   collecting the ids of the sessions `f` picks: the loop shared by
   `get_user_sessions` and `cleanup_expired_sessions`.
   */
  method CollectIds(db: Db, f: Selector) returns (ids: seq<string>)
    requires Decodes(db)
    ensures ids == Selected(db, PrefixScan(db, SessionPrefix), f)
  {
    var keys := Scan(db, SessionPrefix);
    ids := [];
    var i := 0;
    while i < |keys|
      invariant 0 <= i <= |keys|
      invariant forall j :: 0 <= j < i ==> StartsWith(keys[j], SessionPrefix)
      invariant ids == Selected(db, keys[..i], f)
    {
      var k := keys[i];
      if !StartsWith(k, SessionPrefix) {
        break;
      }
      SelectedSnoc(db, keys, f, i);
      var session := db[k].session;
      if Selects(f, session) {
        ids := ids + [session.sessionId];
      }
      i := i + 1;
    }
    StopIndexUnique(keys, SessionPrefix, i);
  }

  /**
   `get_user_sessions(user_id)`: the ids of the user's sessions, live or not,
   in key order; the store is only read.
   */
  method GetUserSessions(s: Sessions, userId: string) returns (ids: seq<string>)
    requires Decodes(s.db)
    ensures ids == Selected(s.db, PrefixScan(s.db, SessionPrefix), OwnedBy(userId))
    ensures |ids| == |PickedSessionKeys(s.db, OwnedBy(userId))|
    ensures Consistent(s.db) ==> StrictlySorted(ids)
    ensures Consistent(s.db) ==> forall id :: id in ids <==>
      SessionKey(id) in s.db && s.db[SessionKey(id)].session.userId == userId
  {
    ids := CollectIds(s.db, OwnedBy(userId));
    var keys := PrefixScan(s.db, SessionPrefix);
    SelectedCount(s.db, keys, OwnedBy(userId));
    PrefixScanPicks(s.db, OwnedBy(userId));
    if Consistent(s.db) {
      SelectedSorted(s.db, keys, OwnedBy(userId));
      SelectedMembers(s.db, keys, OwnedBy(userId));
      SessionKeys();
    }
  }

  /** The batch of deletions for a list of ids, in list order. */
  function Erasures(ids: seq<string>): (ops: seq<Op<Record>>)
    ensures forall j :: 0 <= j < |ops| ==> ops[j].Erase?
    ensures ErasedKeys(ops) == set id | id in ids :: SessionKey(id)
  {
    var ops := seq(|ids|, j requires 0 <= j < |ids| => Erase(SessionKey(ids[j])));
    assert ErasedKeys(ops) == set id | id in ids :: SessionKey(id) by {
      forall id | id in ids
        ensures SessionKey(id) in ErasedKeys(ops)
      {
        var j :| 0 <= j < |ids| && ids[j] == id;
        assert ops[j].key == SessionKey(id);
      }
    }
    ops
  }

  /** The keys of all sessions expired at `now`. */
  function ExpiredKeys(db: Db, now: int, ttl: int): set<string>
  {
    PickedSessionKeys(db, ExpiredAsOf(now, ttl))
  }

  /**
   `cleanup_expired_sessions()`: collects the ids of the expired sessions with
   one scan, deletes their records in one batch, and reports how many it
   found. The sweep removes exactly the expired sessions and leaves every
   other record as it was.
   */
  method CleanupExpiredSessions(s: Sessions, now: int) returns (r: Sessions, count: nat)
    requires Decodes(s.db)
    ensures var expired := Selected(s.db, PrefixScan(s.db, SessionPrefix), ExpiredAsOf(now, s.ttlSeconds));
      && count == |expired|
      && r.db == Apply(s.db, Erasures(expired))
    ensures count == |ExpiredKeys(s.db, now, s.ttlSeconds)|
    ensures r.ttlSeconds == s.ttlSeconds
    ensures forall k :: k in r.db ==> k in s.db && r.db[k] == s.db[k]
    ensures forall k :: k in s.db && !StartsWith(k, SessionPrefix) ==> k in r.db
    ensures Consistent(s.db) ==> r.db == s.db - ExpiredKeys(s.db, now, s.ttlSeconds)
    ensures Decodes(r.db)
  {
    var f := ExpiredAsOf(now, s.ttlSeconds);
    var expired := CollectIds(s.db, f);
    var keys := PrefixScan(s.db, SessionPrefix);
    r := s;
    if |expired| > 0 {
      var ops := Erasures(expired);
      r := s.(db := Apply(s.db, ops));
    }
    count := |expired|;
    SelectedCount(s.db, keys, f);
    PrefixScanPicks(s.db, f);
    EraseExpired(s.db, expired, keys, f);
  }

  /** A deletion batch built from ids touches only session keys. */
  lemma ErasuresOnlySessions(ids: seq<string>)
    ensures forall k :: k in ErasedKeys(Erasures(ids)) ==> StartsWith(k, SessionPrefix)
  {
    var ops := Erasures(ids);
    SessionKeys();
    forall k | k in ErasedKeys(ops)
      ensures StartsWith(k, SessionPrefix)
    {
      var i :| 0 <= i < |ops| && ops[i].Erase? && ops[i].key == k;
    }
  }

  /** In a consistent store, the batch built from the picked ids deletes exactly the picked keys. */
  lemma ErasuresExact(db: Db, keys: seq<string>, f: Selector)
    requires Consistent(db)
    requires forall j :: 0 <= j < |keys| ==> StartsWith(keys[j], SessionPrefix)
    ensures ErasedKeys(Erasures(Selected(db, keys, f))) == SelectedKeys(db, keys, f)
  {
    var ids := Selected(db, keys, f);
    var ops := Erasures(ids);
    SelectedMembers(db, keys, f);
    forall k | k in ErasedKeys(ops)
      ensures k in SelectedKeys(db, keys, f)
    {
      var i :| 0 <= i < |ops| && ops[i].Erase? && ops[i].key == k;
      assert ids[i] in ids;
    }
    forall k | k in SelectedKeys(db, keys, f)
      ensures k in ErasedKeys(ops)
    {
      var id := db[k].session.sessionId;
      assert SessionKey(id) == k;
      var i :| 0 <= i < |ids| && ids[i] == id;
      assert ops[i] == Erase(k);
    }
  }

  /** What the deletion batch of `cleanup_expired_sessions` does to the store. */
  lemma EraseExpired(db: Db, expired: seq<string>, keys: seq<string>, f: Selector)
    requires keys == PrefixScan(db, SessionPrefix)
    requires expired == Selected(db, keys, f)
    ensures var after := Apply(db, Erasures(expired));
      && (forall k :: k in after ==> k in db && after[k] == db[k])
      && (forall k :: k in db && !StartsWith(k, SessionPrefix) ==> k in after)
      && (Consistent(db) ==> after == db - SelectedKeys(db, keys, f))
  {
    ApplyErasures(db, Erasures(expired));
    ErasuresOnlySessions(expired);
    if Consistent(db) {
      ErasuresExact(db, keys, f);
    }
  }

  /**
   The session count of `get_stats`: a scan from `session:` run to the end of
   the store, counting the keys that carry the prefix.
   */
  method TotalSessions(s: Sessions) returns (n: nat)
    ensures n == |KeysWithPrefix(s.db, SessionPrefix)|
  {
    n := CountWithPrefix(s.db, SessionPrefix);
  }
}
