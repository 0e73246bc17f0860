/** The helpers the cache service relies on: the TTL policy that stamps entries with an
    expiration time, and the error objects whose name tells callers what went wrong. */
module Utils {

  /** The configured TTL is given in seconds; the clock counts milliseconds. */
  const MILLIS_PER_SECOND: int := 1000

  /** The expiration stamp of an entry written at `now` (milliseconds since the epoch)
      under a TTL of `ttlSeconds`. It depends on `now` alone, never on an earlier stamp. */
  function ExpirationTime(now: int, ttlSeconds: int): (stamp: int)
    ensures stamp >= now <==> ttlSeconds >= 0
    ensures stamp > now <==> ttlSeconds > 0
  {
    now + MILLIS_PER_SECOND * ttlSeconds
  }

  /** A refresh always grants the whole window: the stamp lies exactly TTL seconds after `now`. */
  lemma FullWindow(now: int, ttlSeconds: int)
    ensures ExpirationTime(now, ttlSeconds) - now == MILLIS_PER_SECOND * ttlSeconds
  {
  }

  /** A later clock never yields an earlier stamp. */
  lemma ExpirationTimeMonotonic(now1: int, now2: int, ttlSeconds: int)
    requires now1 <= now2
    ensures ExpirationTime(now1, ttlSeconds) <= ExpirationTime(now2, ttlSeconds)
  {
  }

  /** An error, known to the callers only by its name. */
  datatype Error = Error(name: string)

  const CACHE_LIMIT_EXCEEDED := "CacheLimitExceeded"
  const ENTRY_NOT_FOUND_IN_DB := "EntryNotFoundInDB"

  /** A fresh error whose name is the given error type. */
  function ErrorObject(errType: string): (err: Error)
    ensures err.name == errType
  {
    Error(errType)
  }

  /** Re-wrapping a caught error by its name, as the service's catch blocks do, gives back
      the same error: the kind of a failure survives the re-wrap. */
  lemma RewrapKeepsError(err: Error)
    ensures ErrorObject(err.name) == err
  {
  }
}
