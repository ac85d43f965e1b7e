# lru-cache-api-notice, modelled in Dafny

A model of the `LruCache` class of `src/index.ts`: a bounded, time-aware
key/value cache for the results of repeated asynchronous requests, with an
optional "notice" mode that collapses concurrent misses for one key into a single
producer and fans its result out to the callers queued behind it.

The model has four modules:

- `LruStore` (`store.dfy`): the `requestCache` map. Its insertion order is the
  recency list, modelled as a repetition-free `seq<HashKey>` (front = least
  recently used) plus a `map<HashKey, Entry>` whose keys are exactly the
  sequence's elements. `Put` is `set` on the store (overwrite moves to the back;
  a new key evicts the front key when the store is full and nonempty), `Promote`
  is the move-to-back of a read hit, `Remove` is `delete`, `Expired` is the lazy
  expiry test `now - storeTime > cacheTime`.
- `Broker` (`broker.dfy`): the `subscribes` map from a hash key to its queue of
  waiters. A waiter (a promise's `[resolve, reject]` pair in the source) is a
  `WaiterId`; settling a key returns the ordered list of settlement events
  `Event(waiter, Resolve(v) | Reject)`.
- `LruCache` (`cache.dfy`): the facade. Each public operation is a pure
  transition over `Cache(config, store, subscribes, nextWaiter)` that takes the
  hash function (`md5`) and, where the source reads `Date.now()`, the time `now`
  as parameters. `get` returns `Null`, `Resolved(v)` or `Pending(waiter)`.
  `Valid` is the invariant every operation keeps: the store is well formed, and
  every queued waiter is distinct and was issued before `nextWaiter`.
- `CacheProperties` (`properties.dfy`): laws that relate several operations.

The hash function is a parameter, and nothing is assumed of it. Two raw keys can
share a hash, and then they share one entry and one queue. The blacklist is
checked on raw keys, before hashing.

Three behaviours of the code are worth spelling out, because they are easy to
miss when reading the class:

- `has` (lines 62-65) does not consult the blacklist. A blocked key is therefore
  reported present in two cases: when it was stored before being blacklisted, and
  when another key with the same hash was stored (`BlockedKeyVisibleToHas`,
  `BlacklistIsNotRetroactive`).
- A present but expired entry defeats deduplication. With notice on, `isExpired`
  (lines 56-58) deletes the key's queue on every read, so every caller that reads
  such a key becomes a producer and gets `null`; nothing is queued behind them
  while the entry stays present and expired (`ExpiredEntryElectsEveryCaller`).
  Once the entry is deleted or evicted, the empty queue left by the last such read
  makes the next miss wait behind that producer, so it still has to call `set` or
  `noticeReject` (`ExpiredProducerCollectsWaiters`). Waiters already queued under that key
  are dropped without being settled (`ExpiredReadDropsWaiters`).
- The constructor's `||` (lines 43-47) turns an explicit 0 for `maxCache` or
  `cacheTime` into the default (20 entries, 10 seconds). The setters accept any
  number. With a capacity of 0 or less, a `set` on an empty store evicts nothing,
  because `keys().next().value` is `undefined` there.

`notice` (lines 163-179) tests `if (subscribes)`, and an empty array is truthy.
So a key whose queue is present but empty is still tracked: the model keeps such
queues, and settling one removes it with no events.

## Model

| member | source | states |
|---|---|---|
| LruStore.RemoveKey | src/index.ts:81 | deleting a key from the ordered map leaves exactly the other keys, without repetitions, one shorter when the key was present and unchanged when it was absent |
| LruStore.RemoveKeyAt | src/index.ts:110 | deleting the key at position i closes the gap: the keys before and after keep their relative order |
| LruStore.Promote | src/index.ts:79-83 | a read hit moves the key to the back; every entry, the key set and the size are unchanged, and the other keys keep their order |
| LruStore.MakeRoom | src/index.ts:91-98 | before storing, a present key is taken out of the order, or else on a full, nonempty store exactly the front key is evicted, or else nothing changes; surviving entries are untouched |
| LruStore.Put | src/index.ts:91-104 | the key ends at the back holding the value stamped `now`; no other entry changes; the size grows by at most one and never shrinks; a capacity bound of at least 1 that held before still holds |
| LruStore.PutOverwrite | src/index.ts:91-93 | setting a present key evicts nothing, keeps the key set and size, and re-appends the key after the others in their old order |
| LruStore.PutEvictsFront | src/index.ts:94-98 | setting a new key on a store at or over capacity and nonempty evicts exactly the front (least recently used) key and appends the new one |
| LruStore.PutAppends | src/index.ts:94-104 | setting a new key below capacity, or on an empty store whatever the capacity, evicts nothing and appends the key |
| LruStore.Remove | src/index.ts:108-112 | `delete` removes only that key; the others keep their entries and relative order; deleting an absent key changes nothing |
| LruStore.SizeIsOrderLength | src/index.ts:94 | `requestCache.size`, the entry count, equals the length of the recency order |
| Broker.BeginTracking | src/index.ts:158-161 | the first missing caller starts tracking the key with an empty queue; no other key's queue changes |
| Broker.Subscribe | src/index.ts:186-193 | a later caller is queued at the end; earlier waiters keep their places; a never-issued waiter keeps all queues free of repetitions |
| Broker.SettleQueue | src/index.ts:168-175 | the settlement loop settles the waiters front to back, one event each with the same outcome, as `Broadcast` does |
| Broker.Notify | src/index.ts:163-179 | a tracked key's waiters are settled in registration order with one outcome and the queue is removed; an untracked key changes nothing; other queues are untouched |
| Broker.NotifySettlesOnce | src/index.ts:163-179 | settling keeps the queues free of repetitions, settles no waiter twice, and leaves none of the settled waiters queued anywhere |
| LruCache.New | src/index.ts:42-50 | construction gives an empty store and broker; an absent or zero capacity becomes 20, a nonzero one is kept; an absent or zero time to live becomes 10000 ms, a nonzero one is multiplied by 1000; a given blacklist is kept, an absent one is empty; storage and notice are on only when given as true |
| LruCache.OrNumber | src/index.ts:43-44 | JavaScript's or-default on a number: a nonzero option is kept, an absent or zero one gives the fallback, so a nonzero fallback never yields 0 |
| CacheProperties.BlacklistIsPerRawKey | src/index.ts:68-70 | the blacklist is checked before hashing: a blocked key reads `null` although an unblocked key with the same hash just stored a fresh value, which that key reads back |
| LruCache.Has | src/index.ts:62-65 | `has` is true exactly when the key's hash is in the recency order, expired or not and blacklisted or not |
| CacheProperties.GetAgreesWithHas | src/index.ts:62-84 | `get` gives a value exactly when the key is not blacklisted, `has` holds and the entry is unexpired; a `get` never changes what `has` answers for any key |
| LruStore.Expired | src/index.ts:52-54 | an entry is expired exactly when `now` is past `storeTime + cacheTime`, so it is still fresh at that deadline; with a nonnegative time to live it is fresh at and before its store time |
| LruStore.ExpiryIsPermanent | src/index.ts:52-54 | for a fixed time to live, an entry expired at some time is expired at every later time |
| CacheProperties.RaisingCacheTimeRevives | src/index.ts:52-54 | a read of an expired entry answers `null` but keeps the entry; after `setCacheTime` raises the time to live past the entry's age, the same read returns the stored value |
| LruCache.HandleNotice | src/index.ts:149-156 | on a miss with notice on, a tracked key queues the caller under a fresh waiter id and returns it pending; an untracked key makes the caller the producer (`null`) and starts an empty queue |
| LruCache.Get | src/index.ts:67-84 | blacklisted: `null`, nothing changes; a value is returned exactly when the entry is present and unexpired, and then it moves to the back; no entry's value or time ever changes; pending exactly when notice is on, the entry is absent and the key is tracked; an expired entry with notice on resets the queue so the caller becomes the producer |
| LruCache.Set | src/index.ts:86-106 | blacklisted: nothing changes; otherwise the store is `Put`'s result, and with notice on every waiter queued under the hash is resolved with the value in arrival order and the key stops being tracked; other queues are untouched |
| LruCache.NoticeReject | src/index.ts:195-201 | every waiter queued under the hash is rejected in arrival order and tracking stops; untracked: nothing changes; the store is never touched |
| LruCache.Delete | src/index.ts:108-112 | only the entry under the key's hash is gone, the rest keep entries and order, and the queues are untouched |
| LruCache.Clear | src/index.ts:114-117 | no key is present afterwards; configuration and queues are untouched |
| LruCache.SetMaxCache | src/index.ts:141-143 | only the capacity changes; nothing is evicted by the call |
| LruCache.SetCacheTime | src/index.ts:137-139 | only the time to live changes, to the given seconds times 1000 |
| LruCache.SetBlackList | src/index.ts:133-135 | a key is blocked afterwards exactly when it was blocked before or is in the given list (appending, not replacing) |
| LruCache.SetUseNotice | src/index.ts:145-147 | only the notice switch changes; store and queues are untouched |
| CacheProperties.SetThenGetHits | src/index.ts:52-54 | a value set at time t is read back at any `now` with `now - t <= cacheTime`, boundary included |
| CacheProperties.SetThenGetExpires | src/index.ts:72-77 | past the time to live the value is not returned but the entry stays, so `has` is still true |
| CacheProperties.CacheTimeGovernsExpiry | src/index.ts:137-139 | after `setCacheTime(s)`, a stored value is served exactly while its age is at most `1000 * s` ms |
| CacheProperties.CollidingKeysShareEntry | src/index.ts:118-120 | two raw keys with the same hash share one entry: a value set under one is read under the other |
| CacheProperties.BlockedKeyVisibleToHas | src/index.ts:62-65 | `has` ignores the blacklist: a blocked key whose hash collides with a stored key reports present, while `get` still answers `null` |
| CacheProperties.BlacklistIsNotRetroactive | src/index.ts:133-135 | blacklisting a stored key keeps it visible to `has`, while `get` answers `null` and `set` changes nothing |
| CacheProperties.ReadProtectsFromEviction | src/index.ts:79-98 | on an empty cache with capacity 2, set A, set B, get A, set C returns A's value on the read, then evicts B and keeps A and C |
| CacheProperties.ReadProtectsFromEvictionNew | src/index.ts:42-50 | the same sequence on a cache constructed with `maxCache: 2` and every other option defaulted |
| CacheProperties.ReadThenSet | src/index.ts:79-98 | on a full cache of capacity 2, a hit on the front key moves it behind the other key, so the next new key evicts the other key and the order becomes [read key, new key] |
| CacheProperties.SetFreshKey | src/index.ts:94-104 | a `set` of a key whose hash is not stored appends it, first evicting the front key exactly when the store is nonempty and at or over capacity |
| CacheProperties.ShrinkEvictsOneAtATime | src/index.ts:94-98 | after shrinking the capacity below the size, the next new key evicts one entry only, so the size stays the same |
| CacheProperties.PutAllInvariant | src/index.ts:91-104 | over any run of `set` calls from empty, with a capacity of at least 1, the store holds only written keys, never exceeds the capacity, and holds all written keys while below capacity |
| CacheProperties.CapacityLaw | src/index.ts:94-104 | from empty, with a capacity of at least 1, the size after any run of `set` calls is min(capacity, number of distinct hashes written by non-blacklisted `set` calls) |
| CacheProperties.TracksSize | src/index.ts:94-104 | a store holding only written hashes, within the capacity, and all of them while below it, has exactly min(capacity, number of distinct written hashes) entries |
| CacheProperties.DedupFanOut | src/index.ts:149-161 | with notice on, the first miss is the producer (`null`), the second is pending, and the producer's `set` resolves exactly that waiter with the value |
| CacheProperties.DeclineReelects | src/index.ts:195-201 | if the producer declines, the queued waiter is rejected and the next miss elects a new producer |
| CacheProperties.QueuedWaiterSettledOnce | src/index.ts:163-179 | a waiter queued by `get` is resolved by the next `set` of its key exactly once and is then queued nowhere |
| CacheProperties.ExpiredEntryElectsEveryCaller | src/index.ts:56-58 | with notice on, two successive reads of a present but expired entry both get `null`; each becomes a producer |
| CacheProperties.ExpiredReadDropsWaiters | src/index.ts:52-60 | an expired read with notice on removes the key's waiters from every queue without settling them |
| CacheProperties.ExpiredProducerCollectsWaiters | src/index.ts:56-58 | after an expired read with notice on elects a producer, deleting the entry makes the next read of the key pending behind that producer, queued as the only waiter |
| CacheProperties.ClearKeepsQueues | src/index.ts:114-117 | after `clear`, a miss on a key that is still tracked is queued behind the in-flight fetch |

## Left out

- sessionStorage mirroring (`storage.setItem/removeItem/clear`, lines 25, 93, 97, 100, 111, 116) and `JSON.stringify`: browser I/O. The `storage` flag is kept in `Config` but has no effect in the model. With the mirror on, line 100 can throw (`JSON.stringify` of a circular or BigInt value, or `setItem` over the storage quota) after lines 91-98 have already deleted the old entry or evicted the front key, leaving the value unstored and the queued waiters pending. `Set` assumes the mirror write succeeds and does not model this partial failure.
- `md5` (lines 1, 119): a foreign hash. It is the `hash` parameter of every operation, so `getHashKey` is that parameter applied to the key. No injectivity is assumed.
- `Date.now()`: replaced by the `now` parameter, in milliseconds.
- Promises and microtasks: a waiter is a `WaiterId` drawn from a counter, and settlement is an ordered event list returned to the caller. A resolved `get` is `Resolved(v)`, not a promise.
- `getCacheTime`, `getMaxCache` (lines 125-131): these only read the fields of `Config` and have no separate member.
- `getBlackList` (lines 121-123) hands out the cache's own mutable array, not a copy. The model has no getter for it; the list is the `blackList` field of `Config`.
- JavaScript reference aliasing. The constructor keeps the caller's own `options.blackList` array (line 47), and `getBlackList` returns that live array, so outside code can grow the blacklist without calling `setBlackList` until `setBlackList` replaces it with a fresh array (line 134). Likewise `set` stores the caller's value object (line 102) and `get` hands back that same object (line 83), so outside mutation is visible through the cache. The model's `Config` holds a value-typed `seq<string>` and entries hold values, so it expresses neither.
- `hasNotice` (lines 181-184): it is `hash(key) in subscribes`, inlined in `HandleNotice`.
- The singleton factory `create` / `createLruCache` (lines 204-216): closure glue around the constructor.
- JavaScript number semantics: `cacheTime * 1000`, the `||` defaults and all comparisons use unbounded integers. NaN, fractions and floating-point rounding are not modelled. A non-numeric falsy option is treated like an absent one.
