/** The cache engine: a capacity-bounded key/value cache with lazy expiry, written as a fixed
    sequence of store calls per operation. Each operation takes the clock `now` (milliseconds),
    the TTL in seconds and, where it admits entries, the capacity `maxEntries`; the random
    strings the engine generates are parameters too. Each method is proved to move the store
    from `old(store.entries)` to a state described by a step predicate or function below; the
    properties of those steps are proved in module CacheProperties. */
module CacheService {
  import opened Wrappers
  import opened Utils
  import opened Store

  const CACHE_HIT := "Cache hit"
  const CACHE_MISS := "Cache miss"

  /** The `data` of a read reply: a stored value, or the store's answer to a takeover
      (the key of the overwritten entry, or null). */
  datatype ReplyData =
    | StoredValue(value: Value)
    | TakeoverResult(matched: Option<string>)

  /** `{ data, message }` as answered by the read path. */
  datatype Reply = Reply(data: ReplyData, message: string)

  /** What create and update answer with: the saved document, or the store's answer to an
      update (the key of the updated entry, or null when the filter matched nothing). */
  datatype Written =
    | Saved(entry: Entry)
    | Updated(matched: Option<string>)

  /** The capacity test: the count exceeds `maxEntries - 1`, that is, the store is full. */
  function IsCacheCountExceeded(count: int, maxEntries: int): (exceeded: bool)
    ensures exceeded <==> count >= maxEntries
  {
    count > maxEntries - 1
  }

  // ---------------------------------------------------------------------------------------
  // Specifications of the steps

  /** The entries after the read-hit refresh: the live entry with `key`, if any, restamped. */
  function Refreshed(s: seq<Entry>, key: string, now: int, ttl: int): seq<Entry>
  {
    match KeyIndex(s, key)
    case Some(i) =>
      if Live(s[i], now) then s[i := Apply(s[i], SetExpiry(ExpirationTime(now, ttl)))] else s
    case None => s
  }

  /** The entries after `findOneAndDelete({ key })`. */
  function WithoutKey(s: seq<Entry>, key: string): seq<Entry>
  {
    match KeyIndex(s, key)
    case Some(i) => RemoveAt(s, i)
    case None => s
  }

  /** `s'` is `s` after the expired entry at position `i` took over `value`. */
  ghost predicate TakenOver(s: seq<Entry>, i: int, value: Value, now: int, ttl: int, s': seq<Entry>)
  {
    0 <= i < |s| && !Live(s[i], now) &&
    s' == s[i := Apply(s[i], SetValueAndExpiry(value, ExpirationTime(now, ttl)))]
  }

  /** The takeover of an expired slot: any one expired entry receives `value` and a fresh
      stamp and is addressed by its own key; with no expired entry the call fails. */
  ghost predicate TakeoverStep(s: seq<Entry>, value: Value, now: int, ttl: int,
                               s': seq<Entry>, r: Result<Option<string>, Error>)
  {
    if AnyMatch(s, ExpiredAt(now)) then
      exists i :: TakenOver(s, i, value, now, ttl, s') && r == Ok(Some(s[i].key))
    else
      s' == s && r == Err(ErrorObject(CACHE_LIMIT_EXCEEDED))
  }

  /** The read path's answer to a takeover, with thrown errors re-wrapped by name. */
  function TakeoverReply(t: Result<Option<string>, Error>): Result<Reply, Error>
  {
    match t
    case Ok(m) => Ok(Reply(TakeoverResult(m), CACHE_MISS))
    case Err(e) => Err(ErrorObject(e.name))
  }

  /** Create's answer to a takeover, with thrown errors re-wrapped by name. */
  function TakeoverWritten(t: Result<Option<string>, Error>): Result<Written, Error>
  {
    match t
    case Ok(m) => Ok(Updated(m))
    case Err(e) => Err(ErrorObject(e.name))
  }

  /** The read-or-create step for `key`, with `random` the random value a miss stores. */
  ghost predicate ReadStep(s: seq<Entry>, key: string, random: string, now: int, ttl: int, maxEntries: int,
                           s': seq<Entry>, r: Result<Reply, Error>)
  {
    var hit := KeyIndex(s, key);
    if hit.Some? && Live(s[hit.value], now) then
      s' == Refreshed(s, key, now, ttl) && r == Ok(Reply(StoredValue(s[hit.value].value), CACHE_HIT))
    else
      var s1 := WithoutKey(s, key);
      var stamp := ExpirationTime(now, ttl);
      if !IsCacheCountExceeded(|s1|, maxEntries) then
        s' == s1 + [Entry(key, Text(random), stamp)] && r == Ok(Reply(StoredValue(Text(random)), CACHE_MISS))
      else
        exists t :: TakeoverStep(s1, Stamped(random, stamp), now, ttl, s', t) && r == TakeoverReply(t)
  }

  /** The explicit create step for payload `data` under the random key `freshKey`. */
  ghost predicate CreateStep(s: seq<Entry>, data: string, freshKey: string, now: int, ttl: int, maxEntries: int,
                             s': seq<Entry>, r: Result<Written, Error>)
  {
    if !IsCacheCountExceeded(|s|, maxEntries) then
      var e := Entry(freshKey, Doc(data), ExpirationTime(now, ttl));
      if KeyIn(s, freshKey) then s' == s && r == Err(ErrorObject(DUPLICATE_KEY))
      else s' == s + [e] && r == Ok(Saved(e))
    else
      exists t :: TakeoverStep(s, Doc(data), now, ttl, s', t) && r == TakeoverWritten(t)
  }

  /** The update-or-insert step: its new entries and its answer. */
  function UpdateStep(s: seq<Entry>, key: string, data: string, now: int, ttl: int): (seq<Entry>, Result<Written, Error>)
  {
    var stamp := ExpirationTime(now, ttl);
    match KeyIndex(s, key)
    case Some(i) =>
      if Live(s[i], now) then (s[i := Apply(s[i], SetValueAndExpiry(Doc(data), stamp))], Ok(Updated(Some(key))))
      else (s, Ok(Updated(None)))
    case None =>
      var e := Entry(key, Doc(data), stamp);
      (s + [e], Ok(Saved(e)))
  }

  /** The delete-by-key step: its new entries and its answer. */
  function DeleteStep(s: seq<Entry>, key: string): (seq<Entry>, Result<Entry, Error>)
  {
    match KeyIndex(s, key)
    case Some(i) => (RemoveAt(s, i), Ok(s[i]))
    case None => (s, Err(ErrorObject(ENTRY_NOT_FOUND_IN_DB)))
  }

  // ---------------------------------------------------------------------------------------
  // The store facts the operations rest on

  lemma FindByKey(s: seq<Entry>, key: string, e: Entry)
    requires UniqueKeys(s) && e in s && e.key == key
    ensures KeyIndex(s, key).Some? && s[KeyIndex(s, key).value] == e
  {
    ghost var i :| 0 <= i < |s| && s[i] == e;
    KeyIndexOfEntry(s, i);
  }

  /** Deleting by key keeps the keys unique, frees the key, shrinks the store by one exactly
      when the key was present, and keeps every entry with another key. */
  lemma WithoutKeyFrees(s: seq<Entry>, key: string)
    requires UniqueKeys(s)
    ensures UniqueKeys(WithoutKey(s, key)) && !KeyIn(WithoutKey(s, key), key)
    ensures |WithoutKey(s, key)| == if KeyIn(s, key) then |s| - 1 else |s|
    ensures forall e :: e in WithoutKey(s, key) ==> e in s
    ensures forall e :: e in s && e.key != key ==> e in WithoutKey(s, key)
  {
    match KeyIndex(s, key)
    case Some(i) =>
      RemoveAtKeys(s, i);
      var r := RemoveAt(s, i);
      forall e | e in r ensures e in s {
        var j :| 0 <= j < |r| && r[j] == e;
        if j >= i { assert r[j] == s[j + 1]; }
      }
      forall e | e in s && e.key != key ensures e in r {
        var j :| 0 <= j < |s| && s[j] == e;
        if j < i { assert r[j] == e; } else { assert j != i && r[j - 1] == e; }
      }
    case None =>
  }

  // ---------------------------------------------------------------------------------------
  // The operations

  /** Restamps the live entry with `key` and answers a hit with the value read before. */
  method UpdatedExpirationTimeOnRead(store: Collection, key: string, value: Value, now: int, ttl: int)
    returns (reply: Reply)
    requires store.Valid()
    modifies store
    ensures store.Valid()
    ensures store.entries == Refreshed(old(store.entries), key, now, ttl)
    ensures reply == Reply(StoredValue(value), CACHE_HIT)
  {
    ghost var s := store.entries;
    var matched := store.FindOneAndUpdate(LiveKey(key, now), SetExpiry(ExpirationTime(now, ttl)));
    if matched.Some? {
      ghost var i :| UpdatedAt(s, i, LiveKey(key, now), SetExpiry(ExpirationTime(now, ttl)), store.entries);
      KeyIndexOfEntry(s, i);
    } else if KeyIndex(s, key).Some? {
      assert !Matches(s[KeyIndex(s, key).value], LiveKey(key, now));
    }
    reply := Reply(StoredValue(value), CACHE_HIT);
  }

  /** Inserts `{ key, value, expiresAt }` and answers a miss with the stored value. */
  method AddNewCacheRecord(store: Collection, key: string, value: Value, expiresAt: int)
    returns (r: Result<Reply, Error>)
    requires store.Valid()
    modifies store
    ensures store.Valid()
    ensures KeyIn(old(store.entries), key) ==> r == Err(ErrorObject(DUPLICATE_KEY)) && store.entries == old(store.entries)
    ensures !KeyIn(old(store.entries), key) ==>
      r == Ok(Reply(StoredValue(value), CACHE_MISS)) && store.entries == old(store.entries) + [Entry(key, value, expiresAt)]
  {
    var saved := store.Save(Entry(key, value, expiresAt));
    match saved
    case Ok(e) => r := Ok(Reply(StoredValue(e.value), CACHE_MISS));
    case Err(e) => r := Err(e);
  }

  /** Overwrites one expired entry with `data` and a fresh stamp, keeping that entry's key;
      fails with CacheLimitExceeded when no entry has expired. */
  method UpdateExpiredCache(store: Collection, data: Value, now: int, ttl: int)
    returns (r: Result<Option<string>, Error>)
    requires store.Valid()
    modifies store
    ensures store.Valid()
    ensures TakeoverStep(old(store.entries), data, now, ttl, store.entries, r)
  {
    ghost var s := store.entries;
    var expired := store.FindOne(ExpiredAt(now));
    if expired.Some? {
      var victim := expired.value;
      var change := SetValueAndExpiry(data, ExpirationTime(now, ttl));
      var matched := store.FindOneAndUpdate(KeyIs(victim.key), change);
      ghost var j :| 0 <= j < |s| && s[j] == victim;
      assert Matches(s[j], KeyIs(victim.key));
      ghost var i :| UpdatedAt(s, i, KeyIs(victim.key), change, store.entries) && matched.value == s[i].key;
      assert i == j;
      assert TakenOver(s, i, data, now, ttl, store.entries);
      r := Ok(matched);
    } else {
      r := Err(ErrorObject(CACHE_LIMIT_EXCEEDED));
    }
  }

  /** Read-or-create: a live entry is a hit and is restamped; otherwise any entry with the key
      is deleted and a fresh random value is stored, under `key` when there is room and by
      taking over an expired entry when the store is full. */
  method GetCacheDataByCacheKey(store: Collection, key: string, random: string, now: int, ttl: int, maxEntries: int)
    returns (r: Result<Reply, Error>)
    requires store.Valid()
    modifies store
    ensures store.Valid()
    ensures ReadStep(old(store.entries), key, random, now, ttl, maxEntries, store.entries, r)
  {
    ghost var s := store.entries;
    var record := store.FindOne(LiveKey(key, now));
    if record.Some? {
      FindByKey(s, key, record.value);
      var reply := UpdatedExpirationTimeOnRead(store, key, record.value.value, now, ttl);
      r := Ok(reply);
    } else {
      if KeyIndex(s, key).Some? {
        assert !Matches(s[KeyIndex(s, key).value], LiveKey(key, now));
      }
      var deleted := store.FindOneAndDelete(KeyIs(key));
      if deleted.Some? {
        ghost var i :| DeletedAt(s, i, KeyIs(key), store.entries);
        KeyIndexOfEntry(s, i);
      }
      assert store.entries == WithoutKey(s, key);
      WithoutKeyFrees(s, key);
      var exceeded := IsCacheCountExceeded(|store.entries|, maxEntries);
      var value, expiresAt := random, ExpirationTime(now, ttl);
      if !exceeded {
        var added := AddNewCacheRecord(store, key, Text(value), expiresAt);
        match added
        case Ok(reply) => r := Ok(reply);
        case Err(e) => r := Err(ErrorObject(e.name));
      } else {
        var data := UpdateExpiredCache(store, Stamped(value, expiresAt), now, ttl);
        r := TakeoverReply(data);
      }
    }
  }

  /** The distinct keys of the live entries. */
  function GetAllStoredCacheKeys(store: Collection, now: int): (keys: seq<string>)
    reads store
    ensures NoDuplicates(keys)
    ensures forall k :: k in keys <==> exists e :: e in store.entries && e.key == k && Live(e, now)
  {
    var keys := DistinctKeys(store.entries, LiveAt(now));
    assert forall k :: HasKeyWhere(store.entries, k, LiveAt(now)) <==> exists e :: e in store.entries && e.key == k && Live(e, now) by {
      forall k | exists e :: e in store.entries && e.key == k && Live(e, now)
        ensures HasKeyWhere(store.entries, k, LiveAt(now))
      {
        var e :| e in store.entries && e.key == k && Live(e, now);
        ghost var i :| 0 <= i < |store.entries| && store.entries[i] == e;
        assert Matches(store.entries[i], LiveAt(now));
      }
    }
    keys
  }

  /** Explicit create: stores `data` under the random key `freshKey` when there is room, and
      by taking over an expired entry when the store is full. */
  method CreateCache(store: Collection, data: string, freshKey: string, now: int, ttl: int, maxEntries: int)
    returns (r: Result<Written, Error>)
    requires store.Valid()
    modifies store
    ensures store.Valid()
    ensures CreateStep(old(store.entries), data, freshKey, now, ttl, maxEntries, store.entries, r)
  {
    var exceeded := IsCacheCountExceeded(|store.entries|, maxEntries);
    var key := freshKey;
    if !exceeded {
      var saved := store.Save(Entry(key, Doc(data), ExpirationTime(now, ttl)));
      match saved
      case Ok(e) => r := Ok(Saved(e));
      case Err(e) => r := Err(ErrorObject(e.name));
    } else {
      var t := UpdateExpiredCache(store, Doc(data), now, ttl);
      r := TakeoverWritten(t);
    }
  }

  /** Update-or-insert: a live entry with `key` gets `data` and a fresh stamp, an expired one
      is left alone (the update filter also asks for liveness), and with no entry at all a new
      one is inserted without any capacity check. */
  method UpdateCache(store: Collection, key: string, data: string, now: int, ttl: int)
    returns (r: Result<Written, Error>)
    requires store.Valid()
    modifies store
    ensures store.Valid()
    ensures (store.entries, r) == UpdateStep(old(store.entries), key, data, now, ttl)
  {
    ghost var s := store.entries;
    var cache := store.FindOne(KeyIs(key));
    if cache.Some? {
      FindByKey(s, key, cache.value);
      var change := SetValueAndExpiry(Doc(data), ExpirationTime(now, ttl));
      var matched := store.FindOneAndUpdate(LiveKey(key, now), change);
      if matched.Some? {
        ghost var i :| UpdatedAt(s, i, LiveKey(key, now), change, store.entries) && matched.value == s[i].key;
        KeyIndexOfEntry(s, i);
      }
      r := Ok(Updated(matched));
    } else {
      var saved := store.Save(Entry(key, Doc(data), ExpirationTime(now, ttl)));
      match saved
      case Ok(e) => r := Ok(Saved(e));
      case Err(e) => r := Err(e);
    }
  }

  /** Deletes the entry with `key`, live or expired; fails with EntryNotFoundInDB when there
      is none. */
  method DeleteCacheByKey(store: Collection, key: string) returns (r: Result<Entry, Error>)
    requires store.Valid()
    modifies store
    ensures store.Valid()
    ensures (store.entries, r) == DeleteStep(old(store.entries), key)
  {
    ghost var s := store.entries;
    var data := store.FindOneAndDelete(KeyIs(key));
    if data.Some? {
      ghost var i :| DeletedAt(s, i, KeyIs(key), store.entries) && data.value == s[i];
      KeyIndexOfEntry(s, i);
      r := Ok(data.value);
    } else {
      r := Err(ErrorObject(ENTRY_NOT_FOUND_IN_DB));
    }
  }

  /** Removes every entry. */
  method DeleteAllCache(store: Collection)
    modifies store
    ensures store.Valid() && store.entries == []
  {
    store.DeleteMany();
  }
}
