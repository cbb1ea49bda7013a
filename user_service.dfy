/**
 * `UserService`: the cache-aside lookup of users by id, store-only creation
 * and deletion, the paged search, and the generic cache helpers. The JPA
 * repository is the map `store` from id to row; the Redis template is the
 * map `cache` from key to value and expiry stamp. Time is passed in as
 * `now` (seconds), since the model has no clock.
 */
module Service {
  import opened Wrappers
  import opened Users
  import opened Keys
  import opened Text
  import opened RedisCache
  import opened Paging

  /**
   * The exceptions the service lets through: `getUserById` finds a value
   * under its key that is not a `User`, or `getUsers` asks for a page whose
   * offset does not fit the `int` JPA takes.
   */
  datatype ServiceError = ClassCastFailure(key: string) | PageOffsetTooLarge(offset: int)

  /**
   * The effect of one `getUserById(id)` call: what it returns, the cache it
   * leaves behind, and whether it queried the store.
   */
  datatype Fetch = Fetch(result: Result<Option<User>, ServiceError>, cache: Cache, storeRead: bool)

  /**
   * `getUserById` at time `now` as a transition of the cache (the store is
   * only read). It reads the store exactly when `user_<id>` has no live
   * entry, fails exactly when that entry holds something other than a
   * `User`, any user it returns comes from that entry or, on a miss, is the
   * store's row, and it returns `null` only on a miss for an absent id. The
   * cache changes only when a miss finds the row, which is then cached.
   */
  function GetUserByIdStep(store: Store, cache: Cache, id: int, now: int): (f: Fetch)
    ensures f.storeRead <==> !Live(cache, UserKey(id), now)
    ensures f.result.Err? <==> Live(cache, UserKey(id), now) && cache[UserKey(id)].value.OtherVal?
    ensures f.result.Ok? && f.result.value.Some? ==>
      if f.storeRead then id in store && f.result.value.value == store[id]
      else f.result.value == Some(cache[UserKey(id)].value.user)
    ensures f.result == Ok(None) <==> f.storeRead && id !in store
    ensures f.cache == if f.storeRead && id in store then Put(cache, UserKey(id), UserVal(store[id]), now) else cache
  {
    var key := UserKey(id);
    match Get(cache, key, now)
    case Some(UserVal(u)) => Fetch(Ok(Some(u)), cache, false)
    case Some(OtherVal(_)) => Fetch(Err(ClassCastFailure(key)), cache, false)
    case None =>
      if id in store then Fetch(Ok(Some(store[id])), Put(cache, key, UserVal(store[id]), now), true)
      else Fetch(Ok(None), cache, true)
  }

  /** A live cached `User` under `user_<id>` is returned as it is, with no store read and no cache write. */
  lemma CacheHit(store: Store, cache: Cache, id: int, now: int)
    requires Live(cache, UserKey(id), now) && cache[UserKey(id)].value.UserVal?
    ensures var f := GetUserByIdStep(store, cache, id, now);
      f.result == Ok(Some(cache[UserKey(id)].value.user)) && f.cache == cache && !f.storeRead
  {
  }

  /** Anything else under `user_<id>` makes the cast fail, again without touching the store. */
  lemma CacheHitNotAUser(store: Store, cache: Cache, id: int, now: int)
    requires Live(cache, UserKey(id), now) && cache[UserKey(id)].value.OtherVal?
    ensures var f := GetUserByIdStep(store, cache, id, now);
      f.result == Err(ClassCastFailure(UserKey(id))) && f.cache == cache && !f.storeRead
  {
  }

  /**
   * On a miss (no entry, or an expired one) for a stored id the row is
   * returned and cached under `user_<id>` for ten minutes from `now`; no
   * other key changes.
   */
  lemma CacheMissStored(store: Store, cache: Cache, id: int, now: int)
    requires !Live(cache, UserKey(id), now) && id in store
    ensures var f := GetUserByIdStep(store, cache, id, now);
      && f.result == Ok(Some(store[id])) && f.storeRead
      && f.cache.Keys == cache.Keys + {UserKey(id)}
      && f.cache[UserKey(id)] == Entry(UserVal(store[id]), now + TtlSeconds)
      && forall k :: k in cache && k != UserKey(id) ==> f.cache[k] == cache[k]
  {
  }

  /** On a miss for an id the store does not hold, the result is `null` and nothing is cached. */
  lemma CacheMissAbsent(store: Store, cache: Cache, id: int, now: int)
    requires !Live(cache, UserKey(id), now) && id !in store
    ensures var f := GetUserByIdStep(store, cache, id, now);
      f.result == Ok(None) && f.cache == cache && f.storeRead
  {
  }

  /** A lookup never caches anything but the store's row for the id looked up. */
  lemma LookupWritesOnlyItsOwnKey(store: Store, cache: Cache, id: int, now: int)
    ensures var f := GetUserByIdStep(store, cache, id, now);
      forall k :: k != UserKey(id) ==> (k in f.cache <==> k in cache) && (k in cache ==> f.cache[k] == cache[k])
    ensures var f := GetUserByIdStep(store, cache, id, now);
      f.cache != cache ==> id in store && f.cache[UserKey(id)].value == UserVal(store[id])
  {
  }

  /**
   * The second of two lookups of a stored id, with no live cache entry
   * before the first, is served from the cache when it comes within ten
   * minutes of the first: same result, no store read, no write.
   */
  lemma SecondLookupHitsCache(store: Store, cache: Cache, id: int, t1: int, t2: int)
    requires !Live(cache, UserKey(id), t1) && id in store
    requires t1 <= t2 < t1 + TtlSeconds
    ensures var first := GetUserByIdStep(store, cache, id, t1);
      var second := GetUserByIdStep(store, first.cache, id, t2);
      second.result == first.result == Ok(Some(store[id])) && !second.storeRead && second.cache == first.cache
  {
    CacheMissStored(store, cache, id, t1);
  }

  /** Ten minutes or more after the first lookup cached it, the entry has expired and the store is read again. */
  lemma LookupAfterExpiryReadsStore(store: Store, cache: Cache, id: int, t1: int, t2: int)
    requires !Live(cache, UserKey(id), t1) && id in store
    requires t2 >= t1 + TtlSeconds
    ensures var first := GetUserByIdStep(store, cache, id, t1);
      var second := GetUserByIdStep(store, first.cache, id, t2);
      second.storeRead && second.result == Ok(Some(store[id]))
  {
    CacheMissStored(store, cache, id, t1);
  }

  /**
   * The cache never holds, under `user_<id>`, a user with a different id:
   * the invariant the lookup keeps (a value that is not a `User` is allowed).
   */
  ghost predicate CacheHonest(cache: Cache)
  {
    forall id :: UserKey(id) in cache && cache[UserKey(id)].value.UserVal? ==>
      cache[UserKey(id)].value.user.id == id
  }

  /**
   * Lookups keep the cache honest, and while it is honest a lookup of `id`
   * returns no user but the one with that id.
   */
  lemma LookupKeepsCacheHonest(store: Store, cache: Cache, id: int, now: int)
    requires StoreValid(store) && CacheHonest(cache)
    ensures var f := GetUserByIdStep(store, cache, id, now);
      CacheHonest(f.cache) && (f.result.Ok? && f.result.value.Some? ==> f.result.value.value.id == id)
  {
    var f := GetUserByIdStep(store, cache, id, now);
    forall other | UserKey(other) in f.cache && f.cache[UserKey(other)].value.UserVal?
      ensures f.cache[UserKey(other)].value.user.id == other
    {
      UserKeyInjective(id, other);
    }
  }

  /**
   * The generic `saveToCache` enforces no key discipline: writing another
   * user under `user_1` makes the cache dishonest, after which a lookup of
   * id 1 returns a user whose id is 2.
   */
  lemma SaveToCacheCanMisdirect(store: Store)
    ensures var cache := Put(map[], UserKey(1), UserVal(User(2, "", "")), 0);
      !CacheHonest(cache) && GetUserByIdStep(store, cache, 1, 0).result == Ok(Some(User(2, "", "")))
  {
    var cache := Put(map[], UserKey(1), UserVal(User(2, "", "")), 0);
    assert UserKey(1) in cache && cache[UserKey(1)].value.user.id != 1;
  }

  /**
   * Every `user_<id>` entry holds a `User` equal to the store's current row
   * for `id`: the cache is an exact copy of part of the store.
   */
  ghost predicate CacheConsistent(store: Store, cache: Cache)
  {
    forall id :: UserKey(id) in cache ==>
      cache[UserKey(id)].value.UserVal? && id in store && cache[UserKey(id)].value.user == store[id]
  }

  /** While the cache is consistent, a lookup returns exactly what the store holds, and keeps it consistent. */
  lemma ConsistentLookupIsTransparent(store: Store, cache: Cache, id: int, now: int)
    requires CacheConsistent(store, cache)
    ensures var f := GetUserByIdStep(store, cache, id, now);
      f.result == Ok(if id in store then Some(store[id]) else None) && CacheConsistent(store, f.cache)
  {
    var f := GetUserByIdStep(store, cache, id, now);
    forall other | UserKey(other) in f.cache
      ensures f.cache[UserKey(other)].value.UserVal? && other in store
      ensures f.cache[UserKey(other)].value.user == store[other]
    {
      UserKeyInjective(id, other);
    }
  }

  /** Creating a row under a fresh id keeps a consistent cache consistent: no entry exists for that id. */
  lemma CreateKeepsCacheConsistent(store: Store, cache: Cache, saved: User)
    requires CacheConsistent(store, cache) && saved.id !in store
    ensures CacheConsistent(store[saved.id := saved], cache)
  {
  }

  /**
   * Deleting a row whose entry is cached leaves the cache inconsistent: the
   * entry outlives the row, and while it is live a lookup still returns the
   * deleted user.
   */
  lemma DeleteLeavesStaleEntry(store: Store, cache: Cache, id: int, now: int)
    requires CacheConsistent(store, cache) && Live(cache, UserKey(id), now)
    ensures !CacheConsistent(store - {id}, cache)
    ensures GetUserByIdStep(store - {id}, cache, id, now).result == Ok(Some(store[id]))
  {
  }

  /** Once the stale entry of a deleted row has expired, a lookup reports the row as gone. */
  lemma StaleEntryExpires(store: Store, cache: Cache, id: int, now: int)
    requires CacheConsistent(store, cache) && UserKey(id) in cache
    requires now >= cache[UserKey(id)].expiresAt
    ensures GetUserByIdStep(store - {id}, cache, id, now).result == Ok(None)
  {
  }

  /** Round trip: a row just created is read back by id, from the store, and then cached. */
  lemma CreateThenGet(store: Store, cache: Cache, saved: User, now: int)
    requires CacheConsistent(store, cache) && saved.id !in store
    ensures var f := GetUserByIdStep(store[saved.id := saved], cache, saved.id, now);
      f.result == Ok(Some(saved)) && f.storeRead
  {
    if UserKey(saved.id) in cache {
      assert false;
    }
  }

  /** An empty name selects the same rows as no name, so skipping the filter changes nothing. */
  lemma EmptyNameSelectsAll(store: Store)
    ensures Matching(store, Some("")) == Matching(store, None) == store.Keys
  {
    forall id | id in store ensures Selected(store[id], Some("")) {
      ContainsEmpty(store[id].name);
    }
  }

  /** Projecting rows of the store to DTOs copies each row's id, name and email. */
  lemma ProjectedRows(store: Store, frag: Option<string>, rows: seq<User>, dtos: seq<UserDTO>)
    requires forall i :: 0 <= i < |rows| ==> rows[i].id in store && store[rows[i].id] == rows[i]
    requires forall i :: 0 <= i < |rows| ==> Selected(rows[i], frag)
    requires dtos == ToDtos(rows)
    ensures |dtos| == |rows|
    ensures forall i :: 0 <= i < |dtos| ==> dtos[i].id == rows[i].id
    ensures forall i :: 0 <= i < |dtos| ==> dtos[i].id in store && dtos[i] == ToDto(store[dtos[i].id])
    ensures forall i :: 0 <= i < |dtos| ==> frag.Some? ==> ContainsIgnoreCase(dtos[i].name, frag.value)
  {
  }

  /** There is always an id the store does not use yet. */
  lemma FreshIdExists(store: Store)
    ensures exists id :: id !in store
  {
    if store.Keys != {} {
      var top := MaxOf(store.Keys);
      assert top + 1 !in store;
    } else {
      assert 0 !in store;
    }
  }

  /**
   * The service object. Its two collaborators are the user table and the
   * Redis value store, both shared mutable state; `storeReads` counts the
   * `findById` calls, so that a cache hit can be seen to skip the store.
   */
  class UserService {
    var store: Store
    var cache: Cache
    ghost var storeReads: nat

    ghost predicate Valid()
      reads this
    {
      StoreValid(store)
    }

    /** A service over the given table and cache contents. */
    constructor (rows: Store, entries: Cache)
      requires StoreValid(rows)
      ensures Valid() && store == rows && cache == entries && storeReads == 0
    {
      store := rows;
      cache := entries;
      storeReads := 0;
    }

    /** `getAllUsers`: every row of the table, each once. */
    method GetAllUsers() returns (users: seq<User>)
      requires Valid()
      ensures |users| == |store|
      ensures forall i :: 0 <= i < |users| ==> users[i].id in store && store[users[i].id] == users[i]
      ensures forall i, j :: 0 <= i < j < |users| ==> users[i].id != users[j].id
      ensures forall id :: id in store ==> store[id] in users
    {
      var ids := IdsDesc(store.Keys);
      IdsDescMembers(store.Keys);
      IdsDescDescending(store.Keys);
      users := Rows(store, ids);
      forall id | id in store ensures store[id] in users {
        assert id in ids;
        var i :| 0 <= i < |ids| && ids[i] == id;
        assert users[i] == store[id];
      }
    }

    /** `getUserById`: cache-aside read of one user. */
    method GetUserById(id: int, now: int) returns (r: Result<Option<User>, ServiceError>)
      requires Valid()
      modifies this`cache, this`storeReads
      ensures Valid() && store == old(store)
      ensures var f := GetUserByIdStep(old(store), old(cache), id, now);
        r == f.result && cache == f.cache && storeReads == old(storeReads) + (if f.storeRead then 1 else 0)
    {
      var key := UserKey(id);
      var cached := Get(cache, key, now);
      match cached {
        case Some(UserVal(u)) =>
          return Ok(Some(u));
        case Some(OtherVal(_)) =>
          return Err(ClassCastFailure(key));
        case None =>
      }
      storeReads := storeReads + 1;
      if id in store {
        var user := store[id];
        cache := Put(cache, key, UserVal(user), now);
        r := Ok(Some(user));
      } else {
        r := Ok(None);
      }
    }

    /** `createUser`: `save` inserts the user under an id the table does not use yet; the cache is not touched. */
    method CreateUser(user: User) returns (saved: User)
      requires Valid()
      modifies this`store
      ensures Valid()
      ensures saved.id !in old(store) && saved.name == user.name && saved.email == user.email
      ensures store == old(store)[saved.id := saved]
      ensures cache == old(cache)
    {
      FreshIdExists(store);
      var id :| id !in store;
      saved := User(id, user.name, user.email);
      store := store[id := saved];
    }

    /** `deleteUser`: the row goes; any `user_<id>` cache entry stays. */
    method DeleteUser(id: int)
      requires Valid()
      modifies this`store
      ensures Valid()
      ensures store == old(store) - {id}
      ensures cache == old(cache)
    {
      store := store - {id};
    }

    /**
     * `getUsers`: page `page` (1-based) of `size` users, newest id first,
     * filtered by `name` when it is non-empty, projected to `UserDTO`s. A
     * page whose offset exceeds `Integer.MAX_VALUE` is refused by the JPA
     * layer before any row is read.
     */
    method GetUsers(name: Option<string>, page: Option<int>, size: Option<int>)
      returns (r: Result<seq<UserDTO>, ServiceError>)
      requires Valid()
      ensures r.Err? <==> Offset(PageNumber(page), PageSize(size)) > IntMax
      ensures r.Err? ==> r.error == PageOffsetTooLarge(Offset(PageNumber(page), PageSize(size)))
      ensures r.Ok? ==> var off, total := Offset(PageNumber(page), PageSize(size)), |Matching(store, Fragment(name))|;
        |r.value| == if off >= total then 0 else if total - off < PageSize(size) then total - off else PageSize(size)
      ensures r.Ok? ==> |r.value| <= PageSize(size)
      ensures r.Ok? ==> forall i :: 0 <= i < |r.value| ==>
        r.value[i].id in store && r.value[i] == ToDto(store[r.value[i].id])
      ensures r.Ok? ==> forall i :: 0 <= i < |r.value| ==>
        name.Some? && name.value != "" ==> ContainsIgnoreCase(r.value[i].name, name.value)
      ensures r.Ok? ==> forall i, j :: 0 <= i < j < |r.value| ==> r.value[i].id > r.value[j].id
      ensures r.Ok? ==> forall i :: 0 <= i < |r.value| ==>
        Rank(Matching(store, Fragment(name)), r.value[i].id) == Offset(PageNumber(page), PageSize(size)) + i
    {
      var pageNumber := PageNumber(page);
      var pageSize := PageSize(size);
      if !OffsetFits(pageNumber, pageSize) {
        return Err(PageOffsetTooLarge(Offset(pageNumber, pageSize)));
      }
      var rows: seq<User>;
      if name.Some? && name.value != "" {
        rows := Query(store, Some(name.value), pageNumber, pageSize);
      } else {
        rows := Query(store, None, pageNumber, pageSize);
      }
      assert rows == Query(store, Fragment(name), pageNumber, pageSize);
      var dtos := ToDtos(rows);
      ProjectedRows(store, Fragment(name), rows, dtos);
      r := Ok(dtos);
    }

    /** `saveToCache`: store any value under any key for ten minutes. */
    method SaveToCache(key: string, value: CacheValue, now: int)
      modifies this`cache
      ensures cache == Put(old(cache), key, value, now)
    {
      cache := Put(cache, key, value, now);
    }

    /** `getFromCache` at time `now`: the live value under `key`, or `null`. */
    method GetFromCache(key: string, now: int) returns (v: Option<CacheValue>)
      ensures v.Some? <==> key in cache && now < cache[key].expiresAt
      ensures v.Some? ==> v.value == cache[key].value
    {
      v := Get(cache, key, now);
    }

    /** `deleteFromCache`: drop `key`. */
    method DeleteFromCache(key: string)
      modifies this`cache
      ensures cache == Remove(old(cache), key)
    {
      cache := Remove(cache, key);
    }
  }
}
