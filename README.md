# UserService: cache-aside user lookup, store-only writes, paged search

A Dafny model of `UserService` from the `springweb` Spring Boot application.
The service sits between a JPA user repository and a Redis value store:

- `getUserById` is a cache-aside read. It builds the key `"user_" + id` and
  returns a cached `User` without touching the repository. On a miss (no
  entry, or one whose ten minutes have run out) it reads the repository and
  caches a found row for ten minutes. A miss is never cached.
- `createUser` and `deleteUser` go to the repository only. `deleteUser` leaves
  any `user_<id>` entry in the cache, so a later lookup can still return the
  deleted user. The model keeps that behaviour and proves it
  (`Service.DeleteLeavesStaleEntry`).
- `getUsers` normalises the 1-based page and the page size, asks the
  repository for one page ordered by id descending (filtered by name,
  ignoring case, when a name is given) and projects each row to a `UserDTO`.
  A page whose offset (`pageNumber * pageSize`) exceeds `Integer.MAX_VALUE`
  is refused by Spring Data JPA, whose `setFirstResult` takes an `int`; the
  model returns `Err(PageOffsetTooLarge(offset))` for it.
- `saveToCache`, `getFromCache` and `deleteFromCache` are plain put, get and
  delete on the cache, with the same ten-minute expiry on writes.

The repository is the map `store: map<int, User>`; each row is stored under
its own id (`Users.StoreValid`). The cache is the map
`cache: map<string, Entry>`. An entry holds a value and the second at which it
expires; a read at time `now` sees only entries with `now < expiresAt`
(`RedisCache.Live`), which is how Redis answers for an expired key. Time is
in whole seconds and the boundary second counts as expired; Redis, on its
millisecond clock, still serves the key at exactly `expiresAt`. Cache
values are untyped in the source, so the model tells a `User` (`UserVal`)
apart from any other object (`OtherVal`). The cast at line 38
then fails, as `Err(ClassCastFailure(key))`, when something other than a
`User` sits under `user_<id>`. The clock is the `now` parameter. Calls to the
repository's `findById` are counted in the ghost field `storeReads`, so that
a cache hit visibly skips the store.

Files: `wrappers.dfy` (Option, Result), `keys.dfy` (key construction and its
injectivity), `text.dfy` (case-insensitive containment), `users.dfy` (rows
and DTO projection), `cache.dfy` (cache entries and their operations),
`paging.dfy` (page normalisation and the repository's paged query),
`user_service.dfy` (the lookup as a transition function, its invariants, and
the `UserService` class).

Behaviour of the code worth knowing, all of it modelled as written:

- The service has no update operation.
- `deleteUser` does not remove `user_<id>` from the cache, so for up to ten
  minutes a lookup can still return the deleted user
  (`Service.DeleteLeavesStaleEntry`, `Service.StaleEntryExpires`).
- A non-`User` value under a user key makes the cast at line 38 fail.
- The public `saveToCache` can put any value under any key, so `user_<id>`
  can hold another user's row (`Service.SaveToCacheCanMisdirect`). Lookups,
  creates and deletes never do this (`Service.LookupKeepsCacheHonest`).

## Model

| member | source | states |
|---|---|---|
| `Keys.UserKey` | src/main/java/com/example/springweb/service/UserService.java:35 | the key starts with the `user_` prefix and is longer than it |
| `Keys.Decimal` | src/main/java/com/example/springweb/service/UserService.java:35 | the decimal rendering of an id is a non-empty string of digits |
| `Keys.LongToString` | src/main/java/com/example/springweb/service/UserService.java:35 | `Long.toString` is non-empty and starts with '-' exactly for negative ids |
| `Keys.DecimalInjective` | src/main/java/com/example/springweb/service/UserService.java:35 | distinct natural numbers have distinct decimal renderings |
| `Keys.LongToStringInjective` | src/main/java/com/example/springweb/service/UserService.java:35 | distinct ids render to distinct strings |
| `Keys.UserKeyInjective` | src/main/java/com/example/springweb/service/UserService.java:35 | `"user_" + a == "user_" + b` exactly when `a == b`, so no lookup can read another id's entry |
| `Text.ContainsIgnoreCase` | src/main/java/com/example/springweb/service/UserService.java:72 | `upper(name) like upper('%' + fragment + '%')` over ASCII case: a name containing the fragment verbatim matches, and a name shorter than the fragment never does |
| `Text.ContainsIgnoreCaseByLower` | src/main/java/com/example/springweb/service/UserService.java:72 | the query's upper-case comparison selects the same names as a lower-case comparison would |
| `Text.ContainsEmpty` | src/main/java/com/example/springweb/service/UserService.java:71-72 | every name contains the empty fragment |
| `Users.ToDtos` | src/main/java/com/example/springweb/service/UserService.java:77-80 | the projection keeps the length and the order and copies id, name and email of each row |
| `RedisCache.Put` | src/main/java/com/example/springweb/service/UserService.java:84-86 | a write adds or replaces one key, with the value and an expiry 600 seconds after `now`; other keys keep their entries |
| `RedisCache.Get` | src/main/java/com/example/springweb/service/UserService.java:88-90 | a read at time `now` yields a value exactly when the key is present and not expired, and then the stored value |
| `RedisCache.Remove` | src/main/java/com/example/springweb/service/UserService.java:92-94 | a delete removes exactly that key and keeps every other entry |
| `RedisCache.GetAfterPut` | src/main/java/com/example/springweb/service/UserService.java:84-90 | after a write, a read of the same key yields the value written for the next 600 seconds, and nothing from then on |
| `RedisCache.GetAfterRemove` | src/main/java/com/example/springweb/service/UserService.java:88-94 | after a delete, a read of that key yields nothing |
| `RedisCache.OtherKeysUntouched` | src/main/java/com/example/springweb/service/UserService.java:84-94 | writing or deleting one key does not change what another key reads |
| `RedisCache.PutIdempotent` | src/main/java/com/example/springweb/service/UserService.java:84-86 | writing the same value twice at the same time equals writing it once |
| `Paging.PageNumber` | src/main/java/com/example/springweb/service/UserService.java:64 | the page index is never negative; it is `page - 1` for a positive page and 0 otherwise |
| `Paging.PageSize` | src/main/java/com/example/springweb/service/UserService.java:65 | the page size is at least 1; it is `size` when positive and 10 otherwise |
| `Paging.Fragment` | src/main/java/com/example/springweb/service/UserService.java:71 | the filtering query is chosen exactly when the name is present and non-empty |
| `Paging.Selected` | src/main/java/com/example/springweb/service/UserService.java:71-75 | a row passes the optional filter exactly when there is no fragment or its lower-cased name contains the lower-cased fragment |
| `Paging.Offset` | src/main/java/com/example/springweb/service/UserService.java:67 | the page offset `pageNumber * pageSize`: zero exactly for page 0 or size 0, and never below the page number when the size is at least 1 |
| `Paging.OffsetOfNextPage` | src/main/java/com/example/springweb/service/UserService.java:67 | page `n + 1` starts exactly `pageSize` past page `n` |
| `Paging.PageRequestWellFormed` | src/main/java/com/example/springweb/service/UserService.java:64-67 | the normalised values meet `PageRequest.of`'s preconditions (index at least 0, size at least 1) |
| `Paging.MaxOf` | src/main/java/com/example/springweb/service/UserService.java:67 | the result is a member of the set and no member is larger |
| `Paging.IdsDesc` | src/main/java/com/example/springweb/service/UserService.java:67 | the descending order of a set of ids has one entry per id |
| `Paging.IdsDescMembers` | src/main/java/com/example/springweb/service/UserService.java:67 | the descending order lists exactly the ids of the set |
| `Paging.IdsDescDescending` | src/main/java/com/example/springweb/service/UserService.java:67 | the descending order is strictly descending, so no id repeats |
| `Paging.RankOfPosition` | src/main/java/com/example/springweb/service/UserService.java:67 | the id at position `i` of the descending order has exactly `i` larger ids in the set |
| `Paging.Matching` | src/main/java/com/example/springweb/service/UserService.java:71-75 | the selected ids are exactly the stored ids whose name passes the optional filter |
| `Paging.PageSlice` | src/main/java/com/example/springweb/service/UserService.java:67 | a page holds at most `pageSize` elements, starting at offset `pageNumber * pageSize`, clipped to the sequence |
| `Paging.PageIds` | src/main/java/com/example/springweb/service/UserService.java:67 | page ids are selected ids in strictly descending order, ranked from the page's offset on, as many as remain after the offset up to `pageSize` |
| `Paging.Query` | src/main/java/com/example/springweb/service/UserService.java:67-75 | the repository page holds at most `pageSize` stored rows, all passing the filter and strictly descending by id; row `i` has exactly `offset + i` larger selected ids; its length is what remains after the offset, capped at `pageSize` |
| `Paging.PagesInOrder` | src/main/java/com/example/springweb/service/UserService.java:67-75 | every id on page `n + 1` is smaller than every id on page `n` |
| `Paging.EverySelectedUserOnItsPage` | src/main/java/com/example/springweb/service/UserService.java:67-75 | every selected row appears on page `r / pageSize` at index `r % pageSize`, where `r` is its rank |
| `Service.GetUserByIdStep` | src/main/java/com/example/springweb/service/UserService.java:34-52 | the store is read exactly when `user_<id>` has no live entry; the call fails exactly when that entry is not a `User`; a returned user is the cached one on a hit and the store's row on a miss; `null` is returned exactly on a miss for an absent id; the cache changes only on a miss that finds the row, which it then caches for `TtlSeconds` |
| `Service.CacheHit` | src/main/java/com/example/springweb/service/UserService.java:37-42 | a live cached `User` is returned as it is, with no store read and the cache unchanged |
| `Service.CacheHitNotAUser` | src/main/java/com/example/springweb/service/UserService.java:38 | a live non-`User` value under the key makes the cast fail, with no store read and the cache unchanged |
| `Service.CacheMissStored` | src/main/java/com/example/springweb/service/UserService.java:44-51 | on a miss (no entry or an expired one) for a stored id the row is returned and cached under `user_<id>` with expiry `now + 600`; no other key changes |
| `Service.CacheMissAbsent` | src/main/java/com/example/springweb/service/UserService.java:45-51 | on a miss (no entry or an expired one) for an absent id the result is null and the cache is unchanged (no negative caching) |
| `Service.LookupWritesOnlyItsOwnKey` | src/main/java/com/example/springweb/service/UserService.java:34-52 | a lookup changes no key but `user_<id>`, and changes that one only to the store's row for `id` |
| `Service.SecondLookupHitsCache` | src/main/java/com/example/springweb/service/UserService.java:34-52 | of two lookups of a stored, uncached id, a second one within 600 seconds of the first returns the same row from the cache with no store read |
| `Service.LookupAfterExpiryReadsStore` | src/main/java/com/example/springweb/service/UserService.java:34-52 | a second lookup 600 seconds or more after the first reads the store again |
| `Service.SaveToCacheCanMisdirect` | src/main/java/com/example/springweb/service/UserService.java:84-86 | a `saveToCache` under `user_1` can make a lookup of id 1 return a user with id 2 |
| `Service.LookupKeepsCacheHonest` | src/main/java/com/example/springweb/service/UserService.java:34-52 | lookups keep every `User` under `user_<id>` carrying id `id`, and then any user returned has the requested id |
| `Service.ConsistentLookupIsTransparent` | src/main/java/com/example/springweb/service/UserService.java:34-52 | while every user entry equals the store's row, a lookup returns exactly the store's answer and keeps that consistency |
| `Service.CreateKeepsCacheConsistent` | src/main/java/com/example/springweb/service/UserService.java:55-57 | inserting under a fresh id keeps a consistent cache consistent |
| `Service.DeleteLeavesStaleEntry` | src/main/java/com/example/springweb/service/UserService.java:59-61 | deleting a cached row breaks consistency, and while its entry is live a lookup still returns the deleted user |
| `Service.StaleEntryExpires` | src/main/java/com/example/springweb/service/UserService.java:34-61 | once the stale entry of a deleted row has expired, a lookup returns null |
| `Service.CreateThenGet` | src/main/java/com/example/springweb/service/UserService.java:34-57 | with a consistent cache, a row just created is read back by its id, from the store |
| `Service.EmptyNameSelectsAll` | src/main/java/com/example/springweb/service/UserService.java:71-75 | filtering by the empty name would select every row, as the unfiltered query does |
| `Service.ProjectedRows` | src/main/java/com/example/springweb/service/UserService.java:77-80 | each DTO equals the projection of the stored row with its id, and its name passes the filter |
| `Service.FreshIdExists` | src/main/java/com/example/springweb/service/UserService.java:56 | the store always has an unused id for `save` to assign |
| `Service.UserService.constructor` | src/main/java/com/example/springweb/service/UserService.java:26-28 | the service starts over the given table and cache with no store reads |
| `Service.UserService.GetAllUsers` | src/main/java/com/example/springweb/service/UserService.java:30-32 | every stored row is returned exactly once and nothing else |
| `Service.UserService.GetUserById` | src/main/java/com/example/springweb/service/UserService.java:34-52 | the result, the new cache and the store-read count are those of `GetUserByIdStep`; the store is unchanged |
| `Service.UserService.CreateUser` | src/main/java/com/example/springweb/service/UserService.java:55-57 | the user is inserted under an id not used before, with its name and email; the cache is unchanged |
| `Service.UserService.DeleteUser` | src/main/java/com/example/springweb/service/UserService.java:59-61 | the id is removed from the store; the cache, including `user_<id>`, is unchanged |
| `Service.UserService.GetUsers` | src/main/java/com/example/springweb/service/UserService.java:63-83 | fails with `PageOffsetTooLarge` exactly when the offset exceeds `Integer.MAX_VALUE`; otherwise at most `PageSize(size)` DTOs of stored rows; names contain a non-empty `name` ignoring case; ids strictly descend; DTO `i` has exactly `offset + i` larger matching ids; the count is what the selection has past the offset, capped at the page size |
| `Service.UserService.SaveToCache` | src/main/java/com/example/springweb/service/UserService.java:84-86 | the cache becomes the old cache with `key` written at `now` |
| `Service.UserService.GetFromCache` | src/main/java/com/example/springweb/service/UserService.java:88-90 | a value is returned exactly when the key is cached and not expired at `now`, and it is the cached value |
| `Service.UserService.DeleteFromCache` | src/main/java/com/example/springweb/service/UserService.java:92-94 | the cache becomes the old cache without `key` |

## Left out

- Redis removes expired keys lazily or in the background; the model keeps them in the map but every read ignores them, which is what a client observes.
- Serialisation of cache values and connection failures of Redis or the database are not modelled. Such exceptions would propagate to the caller.
- `System.out.println` logging (lines 40 and 44) is not modelled.
- Spring dependency injection is not modelled; the constructor takes the two collaborators' contents instead.
- Concurrent requests are not modelled.
- `Service.UserService.CreateUser`: JPA's `save` merges when the incoming `User` already carries an id. The model always inserts under a fresh id and ignores the incoming id. It does not say how the database chooses that id.
- `Service.UserService.DeleteUser`: deleting an id that is not stored is a no-op, as in Spring Data 3. Older Spring Data versions throw `EmptyResultDataAccessException` instead.
- `Service.UserService.GetAllUsers`: `findAll()` gives no order. The contract promises none, although the body lists the rows by id descending.
- A `null` id, a `null` user and `null` names or emails are not modelled. Ids, names and emails are plain values.
- Ids are unbounded integers, not 64-bit `Long`s.
- Case folding covers ASCII letters only; the database's Unicode case rules are not modelled.
- `Page` metadata (total count, number of pages) is not modelled; only `getContent()` is.
- `Service.UserService.GetUsers`: the refusal of an offset above `Integer.MAX_VALUE` follows Spring Data JPA 3, which throws `InvalidDataAccessApiUsageException`. Spring Data JPA 2 instead narrows the offset with an `int` cast and reads from the wrapped offset; that variant is not modelled. The build file that fixes the library version is not part of this model.
- `page` and `size` are `Integer`s in the source and unbounded integers in the model. Their product is computed in `long` by `PageRequest.getOffset()`, so no overflow arises before the `int` check.
- `UserController` (HTTP routing, `null` mapped to 404) and `SpringwebApplication` (start-up) are not part of this model.
