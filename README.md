# Cache engine with lazy expiry and expired-slot takeover

This project models the cache engine of a small key/value cache service built on a document
collection. Each cache entry is a document `{key, value, expiresAt}`. An entry is *live* while
`expiresAt >= now` and *expired* afterwards. Expiry is lazy: nothing sweeps the collection,
and liveness is only tested when an entry is accessed. The engine caps the number of documents
at `MAX_ENTRIES`. When the store is full, a new value is admitted by overwriting ("taking
over") any one expired document.

The model has five modules:

- `Wrappers` holds `Option` and `Result`. They stand for a store answer that may be null and
  for a thrown error.
- `Utils` models the TTL helper. The stamp is `now + 1000 * ttlSeconds` milliseconds. It also
  models the error objects, which callers know only by their name.
- `Store` models the collection the engine runs on, as the class `Collection`. Its field
  `entries` is a sequence of `Entry` values. Its primitives are `findOne`,
  `findOneAndUpdate`, `findOneAndDelete`, `save` (which enforces the unique index on `key`)
  and `deleteMany`. Matching documents are found by `Filter` values, one per query document
  the service sends. When several documents match, the primitive picks any one of them.
- `CacheService` has one method per service function that changes the store. Each of these
  methods modifies the `Collection`, and each is proved to follow a step specification over
  the old and new entries: `ReadStep`, `CreateStep`, `TakeoverStep`, `UpdateStep`,
  `DeleteStep` and `Refreshed`. The read-only query `getAllStoredCacheKeys` is a function that
  reads the collection. Three small helpers are folded in: `getIsCacheCountExceed` is the
  function `IsCacheCountExceeded` over a count, `getCacheRecordsCount` is
  `|store.entries|`, and `updateQuery` is the primitive `FindOneAndUpdate`.
- `CacheProperties` proves what the engine promises about those steps. It covers hits, misses,
  takeovers, exhaustion, update and delete cases, key uniqueness, and the capacity bound. It
  also proves these properties over any sequence of calls issued one at a time.

Some inputs come from outside the engine. Each is a parameter in the model:

- the clock `now`, in integer milliseconds, with one value for the whole operation;
- the TTL in seconds;
- `MAX_ENTRIES`;
- the random string that `getRandomString` would produce. This is the value a read miss
  stores, or the key a create uses.

Two facts about the code shape what is proved:

- Stamps are in milliseconds. An entry written at `now` expires at `now + 1000 * seconds`
  (`_helpers/utils.js:22-23`).
- `updateCache` inserts a missing key without any capacity test
  (`cache-management/cache-management.service.js:197-201`). So the capacity bound is proved
  only for sequences of calls without updates (`RunWithinCapacity`), and `UpdateAbsentKey`
  shows that an update grows even a full store.

## Model

| member | source | states |
|---|---|---|
| `Utils.ExpirationTime` | _helpers/utils.js:22-23 | a stamp is at or after `now` exactly when the TTL is non-negative, and strictly after it exactly when the TTL is positive, so a freshly stamped entry passes the liveness filter |
| `Utils.FullWindow` | _helpers/utils.js:22-23 | the stamp lies exactly `1000 * ttlSeconds` milliseconds after `now` (that a refresh grants the full window is proved by `ReadHit` and `UpdateLiveEntry`) |
| `Utils.ExpirationTimeMonotonic` | _helpers/utils.js:22-23 | a later clock never yields an earlier stamp |
| `Utils.ErrorObject` | _helpers/utils.js:6-10 | the error built for an error type carries exactly that type as its name |
| `Utils.RewrapKeepsError` | cache-management/cache-management.service.js:120-122 | re-wrapping a caught error by its name, as the catch blocks do, yields the same error, so `CacheLimitExceeded` survives the re-wrap |
| `Store.KeyIndexOfEntry` | cache-management/cache-management.model.js:6 | under the unique index on `key`, an entry's key locates that entry and no other |
| `Store.RemoveAtKeys` | cache-management/cache-management.model.js:6 | removing one document keeps the keys unique, frees its key and keeps every other key |
| `Store.DistinctKeys` | cache-management/cache-management.service.js:130-133 | `find(filter).distinct("key")` lists every key of a matching document, each exactly once |
| `Store.FilterStamps` | cache-management/cache-management.service.js:37-40 | the query documents `{key, expiresAt: {$gte: now}}`, `{expiresAt: {$gte: now}}` and `{expiresAt: {$lt: now}}` match exactly the entries with that key and `expiresAt >= now`, exactly those with `expiresAt >= now`, and exactly those with `expiresAt < now`; every entry is either live or expired, never both |
| `Store.Apply` | cache-management/cache-management.service.js:16-20 | a `$set` overwrites the fields it names (the stamp, and the value when given) and never the key |
| `Store.Collection.FindOne` | cache-management/cache-management.service.js:142-144 | `findOne` answers null exactly when no document matches, and otherwise a document of the collection that matches the filter (any one of them) |
| `Store.Collection.FindOneAndUpdate` | cache-management/cache-management.service.js:16-20 | `findOneAndUpdate` applies the `$set` to one matching document, keeps its key, and answers with that key; when nothing matches it answers null and changes nothing |
| `Store.Collection.FindOneAndDelete` | cache-management/cache-management.service.js:97 | `findOneAndDelete` removes one matching document and answers with it; when nothing matches it answers null and changes nothing |
| `Store.Collection.Save` | cache-management/cache-management.model.js:6 | `save` appends the document, unless its key is taken; in that case the unique index refuses it with a duplicate-key error and nothing changes |
| `Store.Collection.DeleteMany` | cache-management/cache-management.service.js:227 | `deleteMany()` empties the collection |
| `CacheService.IsCacheCountExceeded` | cache-management/cache-management.service.js:73-76 | the test `count > MAX_ENTRIES - 1` holds exactly when `count >= MAX_ENTRIES` |
| `CacheService.UpdatedExpirationTimeOnRead` | cache-management/cache-management.service.js:36-48 | restamps only the live entry with the key, to `now + TTL`, and answers the value read before with "Cache hit" |
| `CacheService.AddNewCacheRecord` | cache-management/cache-management.service.js:57-67 | appends `{key, value, expiresAt}` and answers the value with "Cache miss"; a taken key is refused and nothing changes |
| `CacheService.UpdateExpiredCache` | cache-management/cache-management.service.js:141-154 | overwrites the value and stamp of one expired entry, found by its own key, and answers that key; with no expired entry it fails with `CacheLimitExceeded` and changes nothing (`TakeoverStep`) |
| `CacheService.WithoutKeyFrees` | cache-management/cache-management.service.js:95-97 | deleting by key before re-creating frees the key, keeps the keys unique, shrinks the store by one exactly when the key was present, and keeps every other entry |
| `CacheService.GetCacheDataByCacheKey` | cache-management/cache-management.service.js:85-123 | read-or-create follows `ReadStep`: a hit restamps the entry; a miss deletes any entry with the key, then inserts below capacity or takes over an expired entry at capacity, and errors are re-wrapped by name |
| `CacheService.GetAllStoredCacheKeys` | cache-management/cache-management.service.js:129-134 | returns exactly the keys of the live entries, each once |
| `CacheService.CreateCache` | cache-management/cache-management.service.js:161-177 | create follows `CreateStep`: below capacity it saves the payload under the random key with the default stamp (a taken key is refused), and at capacity it takes over an expired entry with the payload |
| `CacheService.UpdateCache` | cache-management/cache-management.service.js:185-206 | update follows `UpdateStep`: a live entry gets the payload and a fresh stamp, an expired entry is left as it is, and an absent key is inserted |
| `CacheService.DeleteCacheByKey` | cache-management/cache-management.service.js:213-220 | delete follows `DeleteStep`: it removes the entry with the key, live or expired, and answers with it; with no such entry it fails with `EntryNotFoundInDB` |
| `CacheService.DeleteAllCache` | cache-management/cache-management.service.js:226-228 | leaves the store empty |
| `CacheProperties.AppendFreshKeepsKeysUnique` | cache-management/cache-management.model.js:6 | inserting a document whose key is not taken keeps the keys unique |
| `CacheProperties.TakeoverTouchesOneExpired` | cache-management/cache-management.service.js:141-150 | a successful takeover keeps the count and every key, leaves every live entry unchanged, and overwrites exactly one entry, which had expired; that entry gets the new value and a fresh stamp, and the answer is its own key |
| `CacheProperties.TakeoverFailsOnlyWhenAllLive` | cache-management/cache-management.service.js:151-153 | a takeover fails exactly when every entry is live; it then fails with `CacheLimitExceeded` and changes nothing |
| `CacheProperties.TakeoverKeepsKeysUnique` | cache-management/cache-management.service.js:146 | a takeover keeps the keys unique and keeps the set of keys the same |
| `CacheProperties.ReadHit` | cache-management/cache-management.service.js:85-93 | a read of a live key answers the stored value with "Cache hit"; it sets that entry's stamp to `now + TTL` whatever the old stamp, and changes neither the value nor any other entry |
| `CacheProperties.ReadMissWithRoom` | cache-management/cache-management.service.js:95-107 | a miss with room after the delete stores `{key, random value, now + TTL}` and answers "Cache miss"; afterwards exactly one entry has the key, it is live for a non-negative TTL, and every entry with another key remains |
| `CacheProperties.ExpiredIsMiss` | cache-management/cache-management.service.js:87-90 | an entry whose stamp has passed is never reported as a hit |
| `CacheProperties.ReadTakeoverLeavesKeyUnbound` | cache-management/cache-management.service.js:108-117 | a miss served by a takeover writes the wrapper `{value, expiresAt}` into one expired entry under that entry's own key, so no entry carries the requested key afterwards |
| `CacheProperties.ReadExhausted` | cache-management/cache-management.service.js:99-122 | when the store is full, every entry is live and the key misses, the read fails with `CacheLimitExceeded` and the store is unchanged |
| `CacheProperties.ReadKeepsKeysUnique` | cache-management/cache-management.service.js:97-117 | read-or-create keeps the keys unique |
| `CacheProperties.ReadWithinCapacity` | cache-management/cache-management.service.js:99-117 | a read starting at or below `MAX_ENTRIES` entries never ends above it |
| `CacheProperties.CreateWithRoom` | cache-management/cache-management.service.js:163-169 | below capacity, create appends `{random key, payload, now + TTL}` when the random key is free; otherwise the duplicate-key error is raised and nothing changes |
| `CacheProperties.CreateExhausted` | cache-management/cache-management.service.js:170-176 | when the store is full and every entry is live, create fails with `CacheLimitExceeded` and the store is unchanged |
| `CacheProperties.CreateKeepsKeysUnique` | cache-management/cache-management.service.js:164-172 | create keeps the keys unique |
| `CacheProperties.CreateWithinCapacity` | cache-management/cache-management.service.js:163-172 | a create starting at or below `MAX_ENTRIES` entries never ends above it |
| `CacheProperties.UpdateLiveEntry` | cache-management/cache-management.service.js:187-196 | updating a live key replaces its value with the payload, refreshes its stamp, changes nothing else, and answers the key |
| `CacheProperties.UpdateExpiredEntry` | cache-management/cache-management.service.js:188-196 | updating an expired key changes nothing and answers null, because the update filter also demands liveness |
| `CacheProperties.UpdateAbsentKey` | cache-management/cache-management.service.js:197-201 | updating an absent key inserts `{key, payload, now + TTL}`; the store grows by one with no capacity test |
| `CacheProperties.UpdateKeepsKeysUnique` | cache-management/cache-management.service.js:187-201 | update keeps the keys unique |
| `CacheProperties.DeleteExisting` | cache-management/cache-management.service.js:213-216 | deleting a present key removes that entry, live or expired, and answers with it; the key is freed, the keys stay unique, and every other entry remains |
| `CacheProperties.DeleteMissing` | cache-management/cache-management.service.js:217-219 | deleting an absent key fails with `EntryNotFoundInDB` and changes nothing |
| `CacheProperties.StepKeepsKeysUnique` | cache-management/cache-management.service.js:85-228 | every service operation keeps the keys unique |
| `CacheProperties.RunKeepsKeysUnique` | cache-management/cache-management.service.js:85-228 | no sequence of reads, creates, updates and deletes ever leaves two entries with the same key |
| `CacheProperties.StepWithinCapacity` | cache-management/cache-management.service.js:85-228 | a read, create, delete or delete-all starting at or below `MAX_ENTRIES` entries never ends above it |
| `CacheProperties.RunWithinCapacity` | cache-management/cache-management.service.js:85-228 | any sequence of reads, creates and deletes, issued one at a time, keeps a store that starts within `MAX_ENTRIES` within it |

## Left out

- The HTTP routing and response shaping, the mapping of error names to status codes, and the
  database connection are outside the engine. `cache-management/cache-management.controller.js`,
  `_helpers/errorHandler.js` and `db/db.js` are not part of this model.
- The document schema is not modelled as such. Two of its facts are kept: the unique index on
  `key` (the `Valid` predicate of `Collection`, and the refusal in `Save`), and the default
  stamp that create and update rely on.
- `getRandomString` draws on `Math.random`. Its result is a string parameter (`random`,
  `freshKey`), so any string is allowed, including one that collides with a taken key.
- `Date.now()` and the environment variables are parameters. Each operation reads a single
  `now`; the source reads the clock afresh at each step.
- Concurrent requests are not modelled: each operation is one atomic transition. The races
  between the steps of concurrent requests are therefore not modelled: the check-then-insert
  of the capacity test, and two callers picking the same takeover victim.
- `Store.Collection.FindOneAndUpdate`: answers only with the key of the matched document, not
  with the pre-update or post-update document. Which one Mongoose returns is library
  behaviour.
- `Store.Collection.Save`: a duplicate key is reported as an error named `DuplicateKey`, which
  stands in for the store's own error name.
- Generic store failures are not modelled: connectivity loss, timeouts and validation errors.
- `CacheService.UpdateCache`: does not model the quirk that its catch block wraps the error
  object itself rather than its name. In the model no step of an update can fail.
- The values stored are modelled as strings (`Value`) rather than arbitrary JSON objects. The
  engine never inspects them.
- `MAX_ENTRIES` and the TTL are unbounded integers. The numeric coercion of the environment
  strings, and a missing variable (which would give `NaN`), are not modelled.
