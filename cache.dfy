/**
 * The Redis value store as the service uses it through
 * `redisTemplate.opsForValue()`: string keys, untyped values, and on every
 * `set` an expiry stamp ten minutes after the time of the write. An entry is
 * live until that stamp; from it on the server answers as if the key were
 * absent. Time is the caller's `now`, in whole seconds, and the boundary
 * second itself counts as expired (Redis, on its millisecond clock, still
 * serves the key at exactly that instant, which a whole-second clock cannot
 * tell apart).
 */
module RedisCache {
  import opened Wrappers
  import opened Users

  /** Time-to-live of every entry the service writes: 10 minutes, in seconds. */
  const TtlMinutes: int := 10
  const TtlSeconds: int := TtlMinutes * 60

  /**
   * A cached value. The template stores any `Object`; `getUserById` casts
   * what it reads to `User`, so the model tells a `User` apart from everything else.
   */
  datatype CacheValue = UserVal(user: User) | OtherVal(payload: string)

  /** A stored value with the time (in seconds) at which it expires. */
  datatype Entry = Entry(value: CacheValue, expiresAt: int)

  type Cache = map<string, Entry>

  /** `opsForValue().set(key, value, 10, TimeUnit.MINUTES)` at time `now`. */
  function Put(cache: Cache, key: string, value: CacheValue, now: int): (c: Cache)
    ensures c.Keys == cache.Keys + {key}
    ensures c[key].value == value && c[key].expiresAt == now + TtlSeconds
    ensures forall k :: k in cache && k != key ==> c[k] == cache[k]
  {
    cache[key := Entry(value, now + TtlSeconds)]
  }

  /** Whether `key` holds an entry that has not expired at time `now`. */
  predicate Live(cache: Cache, key: string, now: int)
  {
    key in cache && now < cache[key].expiresAt
  }

  /** `opsForValue().get(key)` at time `now`: the live value, or `null` when there is none. */
  function Get(cache: Cache, key: string, now: int): (r: Option<CacheValue>)
    ensures r.Some? <==> key in cache && now < cache[key].expiresAt
    ensures r.Some? ==> r.value == cache[key].value
  {
    if Live(cache, key, now) then Some(cache[key].value) else None
  }

  /** `redisTemplate.delete(key)`. */
  function Remove(cache: Cache, key: string): (c: Cache)
    ensures c.Keys == cache.Keys - {key}
    ensures forall k :: k in c ==> c[k] == cache[k]
  {
    cache - {key}
  }

  /**
   * A value written is read back under the same key for ten minutes, and
   * not after.
   */
  lemma GetAfterPut(cache: Cache, key: string, value: CacheValue, now: int, t: int)
    requires now <= t
    ensures Get(Put(cache, key, value, now), key, t) == if t < now + TtlSeconds then Some(value) else None
  {
  }

  /** A removed key reads as absent. */
  lemma GetAfterRemove(cache: Cache, key: string, t: int)
    ensures Get(Remove(cache, key), key, t) == None
  {
  }

  /** Writing or removing one key leaves every other key's reading as it was. */
  lemma OtherKeysUntouched(cache: Cache, key: string, other: string, value: CacheValue, now: int, t: int)
    requires other != key
    ensures Get(Put(cache, key, value, now), other, t) == Get(cache, other, t)
    ensures Get(Remove(cache, key), other, t) == Get(cache, other, t)
  {
  }

  /** Writing the same value twice at the same time is the same as writing it once. */
  lemma PutIdempotent(cache: Cache, key: string, value: CacheValue, now: int)
    ensures Put(Put(cache, key, value, now), key, value, now) == Put(cache, key, value, now)
  {
  }
}
