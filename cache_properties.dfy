/** What the cache engine promises, proved about the step specifications that its methods
    are shown to follow: hits refresh one stamp, misses rebind the key, takeovers touch one
    expired entry, a full store of live entries refuses admission, keys stay unique and, for
    the admitting calls, the entry count stays within the capacity. */
module CacheProperties {
  import opened Wrappers
  import opened Utils
  import opened Store
  import opened CacheService

  /** Inserting an entry whose key is not yet taken keeps the keys unique. */
  lemma AppendFreshKeepsKeysUnique(s: seq<Entry>, e: Entry)
    requires UniqueKeys(s) && !KeyIn(s, e.key)
    ensures UniqueKeys(s + [e])
  {
    var s' := s + [e];
    forall a, b | 0 <= a < |s'| && 0 <= b < |s'| && a != b ensures s'[a].key != s'[b].key {
      if a < |s| { assert s'[a] == s[a]; }
      if b < |s| { assert s'[b] == s[b]; }
    }
  }

  // ---------------------------------------------------------------------------------------
  // Takeover

  /** A takeover keeps the count and every key, overwrites exactly one entry, which had
      expired, answers with that entry's own key, and leaves every live entry as it was. */
  lemma TakeoverTouchesOneExpired(s: seq<Entry>, value: Value, now: int, ttl: int,
                                  s': seq<Entry>, r: Result<Option<string>, Error>)
    requires TakeoverStep(s, value, now, ttl, s', r) && r.Ok?
    ensures |s'| == |s|
    ensures forall j :: 0 <= j < |s| ==> s'[j].key == s[j].key
    ensures forall j :: 0 <= j < |s| && Live(s[j], now) ==> s'[j] == s[j]
    ensures exists i ::
      0 <= i < |s| && !Live(s[i], now) && r.value == Some(s[i].key) &&
      s'[i] == Entry(s[i].key, value, ExpirationTime(now, ttl)) &&
      (forall j :: 0 <= j < |s| && j != i ==> s'[j] == s[j])
  {
    var i :| TakenOver(s, i, value, now, ttl, s') && r == Ok(Some(s[i].key));
    assert s'[i] == Entry(s[i].key, value, ExpirationTime(now, ttl));
  }

  /** A takeover fails with CacheLimitExceeded exactly when no entry has expired, and then
      changes nothing. */
  lemma TakeoverFailsOnlyWhenAllLive(s: seq<Entry>, value: Value, now: int, ttl: int,
                                     s': seq<Entry>, r: Result<Option<string>, Error>)
    requires TakeoverStep(s, value, now, ttl, s', r)
    ensures r.Err? <==> forall j :: 0 <= j < |s| ==> Live(s[j], now)
    ensures r.Err? ==> r.error.name == CACHE_LIMIT_EXCEEDED && s' == s
  {
    if !AnyMatch(s, ExpiredAt(now)) {
      forall j | 0 <= j < |s| ensures Live(s[j], now) {
        assert !Matches(s[j], ExpiredAt(now));
      }
    } else {
      var i :| 0 <= i < |s| && Matches(s[i], ExpiredAt(now));
    }
  }

  lemma TakeoverKeepsKeysUnique(s: seq<Entry>, value: Value, now: int, ttl: int,
                                s': seq<Entry>, r: Result<Option<string>, Error>)
    requires UniqueKeys(s) && TakeoverStep(s, value, now, ttl, s', r)
    ensures UniqueKeys(s')
    ensures forall k :: KeyIn(s', k) <==> KeyIn(s, k)
  {
    if r.Ok? {
      TakeoverTouchesOneExpired(s, value, now, ttl, s', r);
      forall k ensures KeyIn(s', k) <==> KeyIn(s, k) {
        if KeyIn(s', k) {
          var j :| 0 <= j < |s'| && s'[j].key == k;
        }
        if KeyIn(s, k) {
          var j :| 0 <= j < |s| && s[j].key == k;
          assert s'[j].key == k;
        }
      }
    }
  }

  // ---------------------------------------------------------------------------------------
  // Read-or-create

  /** A hit answers the stored value with "Cache hit" and restamps that one entry to a full
      TTL window from `now`, whatever its previous stamp; values and all other entries stay. */
  lemma ReadHit(s: seq<Entry>, key: string, random: string, now: int, ttl: int, maxEntries: int,
                s': seq<Entry>, r: Result<Reply, Error>, i: nat)
    requires UniqueKeys(s) && i < |s| && s[i].key == key && Live(s[i], now)
    requires ReadStep(s, key, random, now, ttl, maxEntries, s', r)
    ensures r == Ok(Reply(StoredValue(s[i].value), CACHE_HIT))
    ensures |s'| == |s| && s'[i] == Entry(key, s[i].value, ExpirationTime(now, ttl))
    ensures forall j :: 0 <= j < |s| && j != i ==> s'[j] == s[j]
  {
    KeyIndexOfEntry(s, i);
  }

  /** A miss (no live entry for the key) with room after the delete stores the random value
      under the key with a fresh stamp: afterwards exactly one entry carries the key, it is
      live for a non-negative TTL, and every entry with another key is still there. */
  lemma ReadMissWithRoom(s: seq<Entry>, key: string, random: string, now: int, ttl: int, maxEntries: int,
                         s': seq<Entry>, r: Result<Reply, Error>)
    requires UniqueKeys(s) && !AnyMatch(s, LiveKey(key, now))
    requires (if KeyIn(s, key) then |s| - 1 else |s|) < maxEntries
    requires ReadStep(s, key, random, now, ttl, maxEntries, s', r)
    ensures r == Ok(Reply(StoredValue(Text(random)), CACHE_MISS))
    ensures |s'| > 0 && s'[|s'| - 1] == Entry(key, Text(random), ExpirationTime(now, ttl))
    ensures forall j :: 0 <= j < |s'| && s'[j].key == key ==> j == |s'| - 1
    ensures ttl >= 0 ==> Live(s'[|s'| - 1], now)
    ensures forall e :: e in s && e.key != key ==> e in s'
  {
    var hit := KeyIndex(s, key);
    if hit.Some? {
      assert !Matches(s[hit.value], LiveKey(key, now));
    }
    WithoutKeyFrees(s, key);
    var s1 := WithoutKey(s, key);
    forall j | 0 <= j < |s'| - 1 ensures s'[j].key != key {
      assert s'[j] == s1[j];
    }
  }

  /** An entry whose stamp has passed is never a hit: a read of its key answers a miss. */
  lemma ExpiredIsMiss(s: seq<Entry>, key: string, random: string, now: int, ttl: int, maxEntries: int,
                      s': seq<Entry>, r: Result<Reply, Error>, i: nat)
    requires UniqueKeys(s) && i < |s| && s[i].key == key && !Live(s[i], now)
    requires ReadStep(s, key, random, now, ttl, maxEntries, s', r)
    ensures r.Ok? ==> r.value.message == CACHE_MISS
  {
    KeyIndexOfEntry(s, i);
    if !IsCacheCountExceeded(|WithoutKey(s, key)|, maxEntries) {
    } else if r.Ok? {
      var t :| TakeoverStep(WithoutKey(s, key), Stamped(random, ExpirationTime(now, ttl)), now, ttl, s', t) && r == TakeoverReply(t);
    }
  }

  /** A miss served by a takeover overwrites one expired entry with the wrapper of the random
      value and its stamp under that entry's own key, so the requested key is bound nowhere. */
  lemma ReadTakeoverLeavesKeyUnbound(s: seq<Entry>, key: string, random: string, now: int, ttl: int, maxEntries: int,
                                     s': seq<Entry>, r: Result<Reply, Error>)
    requires UniqueKeys(s) && ReadStep(s, key, random, now, ttl, maxEntries, s', r)
    requires r.Ok? && r.value.data.TakeoverResult?
    ensures !KeyIn(s', key)
    ensures r.value.message == CACHE_MISS
    ensures exists i :: TakenOver(WithoutKey(s, key), i, Stamped(random, ExpirationTime(now, ttl)), now, ttl, s')
  {
    var s1 := WithoutKey(s, key);
    WithoutKeyFrees(s, key);
    var t :| TakeoverStep(s1, Stamped(random, ExpirationTime(now, ttl)), now, ttl, s', t) && r == TakeoverReply(t);
    TakeoverKeepsKeysUnique(s1, Stamped(random, ExpirationTime(now, ttl)), now, ttl, s', t);
  }

  /** A full store whose entries are all live refuses a miss with CacheLimitExceeded, the name
      surviving the re-wrap, and is left exactly as it was. */
  lemma ReadExhausted(s: seq<Entry>, key: string, random: string, now: int, ttl: int, maxEntries: int,
                      s': seq<Entry>, r: Result<Reply, Error>)
    requires |s| >= maxEntries && !AnyMatch(s, LiveKey(key, now))
    requires forall j :: 0 <= j < |s| ==> Live(s[j], now)
    requires ReadStep(s, key, random, now, ttl, maxEntries, s', r)
    ensures r == Err(Error(CACHE_LIMIT_EXCEEDED)) && s' == s
  {
    forall j | 0 <= j < |s| ensures s[j].key != key && !Matches(s[j], ExpiredAt(now)) {
      assert !Matches(s[j], LiveKey(key, now));
    }
    assert WithoutKey(s, key) == s;
  }

  lemma ReadKeepsKeysUnique(s: seq<Entry>, key: string, random: string, now: int, ttl: int, maxEntries: int,
                            s': seq<Entry>, r: Result<Reply, Error>)
    requires UniqueKeys(s) && ReadStep(s, key, random, now, ttl, maxEntries, s', r)
    ensures UniqueKeys(s')
  {
    var hit := KeyIndex(s, key);
    if hit.Some? && Live(s[hit.value], now) {
      ReadHit(s, key, random, now, ttl, maxEntries, s', r, hit.value);
    } else {
      var s1 := WithoutKey(s, key);
      WithoutKeyFrees(s, key);
      if IsCacheCountExceeded(|s1|, maxEntries) {
        var t :| TakeoverStep(s1, Stamped(random, ExpirationTime(now, ttl)), now, ttl, s', t) && r == TakeoverReply(t);
        TakeoverKeepsKeysUnique(s1, Stamped(random, ExpirationTime(now, ttl)), now, ttl, s', t);
      } else {
        AppendFreshKeepsKeysUnique(s1, Entry(key, Text(random), ExpirationTime(now, ttl)));
      }
    }
  }

  /** Starting at or below the capacity, a read-or-create never ends above it. */
  lemma ReadWithinCapacity(s: seq<Entry>, key: string, random: string, now: int, ttl: int, maxEntries: int,
                           s': seq<Entry>, r: Result<Reply, Error>)
    requires UniqueKeys(s) && |s| <= maxEntries
    requires ReadStep(s, key, random, now, ttl, maxEntries, s', r)
    ensures |s'| <= maxEntries
  {
    var hit := KeyIndex(s, key);
    if !(hit.Some? && Live(s[hit.value], now)) {
      var s1 := WithoutKey(s, key);
      WithoutKeyFrees(s, key);
      if IsCacheCountExceeded(|s1|, maxEntries) {
        var t :| TakeoverStep(s1, Stamped(random, ExpirationTime(now, ttl)), now, ttl, s', t) && r == TakeoverReply(t);
        if t.Ok? {
          TakeoverTouchesOneExpired(s1, Stamped(random, ExpirationTime(now, ttl)), now, ttl, s', t);
        }
      }
    }
  }

  // ---------------------------------------------------------------------------------------
  // Explicit create

  /** With room, the payload is saved under the random key with a fresh stamp, unless that key
      is taken, in which case the unique index refuses it and nothing changes. */
  lemma CreateWithRoom(s: seq<Entry>, data: string, freshKey: string, now: int, ttl: int, maxEntries: int,
                       s': seq<Entry>, r: Result<Written, Error>)
    requires |s| < maxEntries
    requires CreateStep(s, data, freshKey, now, ttl, maxEntries, s', r)
    ensures !KeyIn(s, freshKey) ==> r.Ok? && s' == s + [Entry(freshKey, Doc(data), ExpirationTime(now, ttl))]
    ensures KeyIn(s, freshKey) ==> r == Err(Error(DUPLICATE_KEY)) && s' == s
  {
  }

  /** A full store whose entries are all live refuses a create with CacheLimitExceeded and is
      left exactly as it was. */
  lemma CreateExhausted(s: seq<Entry>, data: string, freshKey: string, now: int, ttl: int, maxEntries: int,
                        s': seq<Entry>, r: Result<Written, Error>)
    requires |s| >= maxEntries && forall j :: 0 <= j < |s| ==> Live(s[j], now)
    requires CreateStep(s, data, freshKey, now, ttl, maxEntries, s', r)
    ensures r == Err(Error(CACHE_LIMIT_EXCEEDED)) && s' == s
  {
    var t :| TakeoverStep(s, Doc(data), now, ttl, s', t) && r == TakeoverWritten(t);
    TakeoverFailsOnlyWhenAllLive(s, Doc(data), now, ttl, s', t);
  }

  lemma CreateKeepsKeysUnique(s: seq<Entry>, data: string, freshKey: string, now: int, ttl: int, maxEntries: int,
                              s': seq<Entry>, r: Result<Written, Error>)
    requires UniqueKeys(s) && CreateStep(s, data, freshKey, now, ttl, maxEntries, s', r)
    ensures UniqueKeys(s')
  {
    if IsCacheCountExceeded(|s|, maxEntries) {
      var t :| TakeoverStep(s, Doc(data), now, ttl, s', t) && r == TakeoverWritten(t);
      TakeoverKeepsKeysUnique(s, Doc(data), now, ttl, s', t);
    } else if !KeyIn(s, freshKey) {
      AppendFreshKeepsKeysUnique(s, Entry(freshKey, Doc(data), ExpirationTime(now, ttl)));
    }
  }

  /** Starting at or below the capacity, a create never ends above it. */
  lemma CreateWithinCapacity(s: seq<Entry>, data: string, freshKey: string, now: int, ttl: int, maxEntries: int,
                             s': seq<Entry>, r: Result<Written, Error>)
    requires |s| <= maxEntries
    requires CreateStep(s, data, freshKey, now, ttl, maxEntries, s', r)
    ensures |s'| <= maxEntries
  {
    if IsCacheCountExceeded(|s|, maxEntries) {
      var t :| TakeoverStep(s, Doc(data), now, ttl, s', t) && r == TakeoverWritten(t);
      if t.Ok? {
        TakeoverTouchesOneExpired(s, Doc(data), now, ttl, s', t);
      }
    }
  }

  // ---------------------------------------------------------------------------------------
  // Update-or-insert

  /** A live entry gets the payload and a fresh stamp; nothing else changes. */
  lemma UpdateLiveEntry(s: seq<Entry>, key: string, data: string, now: int, ttl: int, i: nat)
    requires UniqueKeys(s) && i < |s| && s[i].key == key && Live(s[i], now)
    ensures UpdateStep(s, key, data, now, ttl).1 == Ok(Updated(Some(key)))
    ensures UpdateStep(s, key, data, now, ttl).0 == s[i := Entry(key, Doc(data), ExpirationTime(now, ttl))]
  {
    KeyIndexOfEntry(s, i);
  }

  /** An expired entry is neither revived nor replaced: the update matches nothing. */
  lemma UpdateExpiredEntry(s: seq<Entry>, key: string, data: string, now: int, ttl: int, i: nat)
    requires UniqueKeys(s) && i < |s| && s[i].key == key && !Live(s[i], now)
    ensures UpdateStep(s, key, data, now, ttl) == (s, Ok(Updated(None)))
  {
    KeyIndexOfEntry(s, i);
  }

  /** An absent key is inserted with the payload and a fresh stamp, with no capacity test:
      the store grows by one whatever its size. */
  lemma UpdateAbsentKey(s: seq<Entry>, key: string, data: string, now: int, ttl: int)
    requires !KeyIn(s, key)
    ensures UpdateStep(s, key, data, now, ttl).0 == s + [Entry(key, Doc(data), ExpirationTime(now, ttl))]
    ensures |UpdateStep(s, key, data, now, ttl).0| == |s| + 1
    ensures UpdateStep(s, key, data, now, ttl).1.Ok?
  {
  }

  lemma UpdateKeepsKeysUnique(s: seq<Entry>, key: string, data: string, now: int, ttl: int)
    requires UniqueKeys(s)
    ensures UniqueKeys(UpdateStep(s, key, data, now, ttl).0)
  {
    if !KeyIn(s, key) {
      AppendFreshKeepsKeysUnique(s, Entry(key, Doc(data), ExpirationTime(now, ttl)));
    }
  }

  // ---------------------------------------------------------------------------------------
  // Delete

  /** Deleting a present key removes that entry, live or expired, answers with it, frees the
      key and keeps every other entry. */
  lemma DeleteExisting(s: seq<Entry>, key: string, i: nat)
    requires UniqueKeys(s) && i < |s| && s[i].key == key
    ensures DeleteStep(s, key).1 == Ok(s[i])
    ensures |DeleteStep(s, key).0| == |s| - 1 && !KeyIn(DeleteStep(s, key).0, key)
    ensures UniqueKeys(DeleteStep(s, key).0)
    ensures forall e :: e in s && e.key != key ==> e in DeleteStep(s, key).0
  {
    KeyIndexOfEntry(s, i);
    WithoutKeyFrees(s, key);
  }

  /** Deleting an absent key fails with EntryNotFoundInDB and changes nothing. */
  lemma DeleteMissing(s: seq<Entry>, key: string)
    requires !KeyIn(s, key)
    ensures DeleteStep(s, key) == (s, Err(Error(ENTRY_NOT_FOUND_IN_DB)))
  {
  }

  // ---------------------------------------------------------------------------------------
  // Sequences of calls, issued one at a time

  /** A call of the cache service with the inputs it draws from outside: the clock, and the
      random value or key it generates. */
  datatype Call =
    | Read(key: string, random: string, now: int)
    | Create(data: string, freshKey: string, now: int)
    | Update(key: string, data: string, now: int)
    | Delete(key: string)
    | DeleteAll

  /** `s'` is a store the call can leave behind when it starts from `s`. */
  ghost predicate Step(s: seq<Entry>, c: Call, ttl: int, maxEntries: int, s': seq<Entry>)
  {
    match c
    case Read(key, random, now) => exists r :: ReadStep(s, key, random, now, ttl, maxEntries, s', r)
    case Create(data, freshKey, now) => exists r :: CreateStep(s, data, freshKey, now, ttl, maxEntries, s', r)
    case Update(key, data, now) => s' == UpdateStep(s, key, data, now, ttl).0
    case Delete(key) => s' == DeleteStep(s, key).0
    case DeleteAll => s' == []
  }

  /** `s'` is a store the calls, one after the other, can leave behind when they start from `s`. */
  ghost predicate Run(s: seq<Entry>, calls: seq<Call>, ttl: int, maxEntries: int, s': seq<Entry>)
    decreases |calls|
  {
    if calls == [] then s' == s
    else exists mid :: Step(s, calls[0], ttl, maxEntries, mid) && Run(mid, calls[1..], ttl, maxEntries, s')
  }

  lemma StepKeepsKeysUnique(s: seq<Entry>, c: Call, ttl: int, maxEntries: int, s': seq<Entry>)
    requires UniqueKeys(s) && Step(s, c, ttl, maxEntries, s')
    ensures UniqueKeys(s')
  {
    match c
    case Read(key, random, now) =>
      var r :| ReadStep(s, key, random, now, ttl, maxEntries, s', r);
      ReadKeepsKeysUnique(s, key, random, now, ttl, maxEntries, s', r);
    case Create(data, freshKey, now) =>
      var r :| CreateStep(s, data, freshKey, now, ttl, maxEntries, s', r);
      CreateKeepsKeysUnique(s, data, freshKey, now, ttl, maxEntries, s', r);
    case Update(key, data, now) =>
      UpdateKeepsKeysUnique(s, key, data, now, ttl);
    case Delete(key) =>
      WithoutKeyFrees(s, key);
    case DeleteAll =>
  }

  /** No sequence of calls ever leaves two entries with the same key. */
  lemma {:induction false} RunKeepsKeysUnique(s: seq<Entry>, calls: seq<Call>, ttl: int, maxEntries: int, s': seq<Entry>)
    requires UniqueKeys(s) && Run(s, calls, ttl, maxEntries, s')
    ensures UniqueKeys(s')
    decreases |calls|
  {
    if calls != [] {
      var mid :| Step(s, calls[0], ttl, maxEntries, mid) && Run(mid, calls[1..], ttl, maxEntries, s');
      StepKeepsKeysUnique(s, calls[0], ttl, maxEntries, mid);
      RunKeepsKeysUnique(mid, calls[1..], ttl, maxEntries, s');
    }
  }

  /** Calls that admit entries only through the capacity test, or remove them, never take a
      store at or below the capacity above it. */
  lemma StepWithinCapacity(s: seq<Entry>, c: Call, ttl: int, maxEntries: int, s': seq<Entry>)
    requires UniqueKeys(s) && |s| <= maxEntries && !c.Update?
    requires Step(s, c, ttl, maxEntries, s')
    ensures |s'| <= maxEntries
  {
    match c
    case Read(key, random, now) =>
      var r :| ReadStep(s, key, random, now, ttl, maxEntries, s', r);
      ReadWithinCapacity(s, key, random, now, ttl, maxEntries, s', r);
    case Create(data, freshKey, now) =>
      var r :| CreateStep(s, data, freshKey, now, ttl, maxEntries, s', r);
      CreateWithinCapacity(s, data, freshKey, now, ttl, maxEntries, s', r);
    case Delete(key) =>
      WithoutKeyFrees(s, key);
    case DeleteAll =>
  }

  /** Issued one at a time, reads, creates and deletes never take a store at or below the
      capacity above it. (Update inserts without the capacity test, so it is excluded.) */
  lemma {:induction false} RunWithinCapacity(s: seq<Entry>, calls: seq<Call>, ttl: int, maxEntries: int, s': seq<Entry>)
    requires UniqueKeys(s) && |s| <= maxEntries
    requires forall i :: 0 <= i < |calls| ==> !calls[i].Update?
    requires Run(s, calls, ttl, maxEntries, s')
    ensures |s'| <= maxEntries
    decreases |calls|
  {
    if calls != [] {
      var mid :| Step(s, calls[0], ttl, maxEntries, mid) && Run(mid, calls[1..], ttl, maxEntries, s');
      StepWithinCapacity(s, calls[0], ttl, maxEntries, mid);
      StepKeepsKeysUnique(s, calls[0], ttl, maxEntries, mid);
      assert forall i :: 0 <= i < |calls[1..]| ==> !calls[1..][i].Update? by {
        forall i | 0 <= i < |calls[1..]| ensures !calls[1..][i].Update? {
          assert calls[1..][i] == calls[i + 1];
        }
      }
      RunWithinCapacity(mid, calls[1..], ttl, maxEntries, s');
    }
  }
}
