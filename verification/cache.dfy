/**
  The cache facade (the `LruCache` class of src/index.ts).

  It composes the eviction store and the deduplication broker behind the public
  operations `has`, `get`, `set`, `delete`, `clear`, `noticeReject` and the
  configuration setters. Every operation is a pure transition: it takes the
  cache, the key hash function (md5 in the source), the raw key and, where the
  source reads the clock, the current time `now` in milliseconds, and returns
  the next cache together with what the caller observes.
 */
module LruCache {
  import opened LruStore
  import opened Broker

  /** The key hash (md5 in the source). Nothing is assumed of it: two raw keys may share a hash. */
  type Hasher = string -> HashKey

  datatype Option<T> = None | Some(value: T)

  /** The constructor's options object; every field may be left out. */
  datatype Options = Options(
    maxCache: Option<int>,
    cacheTime: Option<int>,
    storage: Option<bool>,
    blackList: Option<seq<string>>,
    useNotice: Option<bool>)

  /**
    The live configuration. `cacheTime` is in milliseconds; `storage` only switches
    the session-storage mirror, which is not part of this model.
   */
  datatype Config = Config(
    maxCache: int,
    cacheTime: int,
    storage: bool,
    blackList: seq<string>,
    useNotice: bool)

  datatype Cache<V> = Cache(
    config: Config,
    store: Store<V>,
    subscribes: Subscribers,
    nextWaiter: WaiterId)

  /**
    What `get` hands back: `null`, an already resolved promise holding the cached
    value, or a promise queued behind the in-flight fetch, named by its waiter.
   */
  datatype Reply<V> = Null | Resolved(value: V) | Pending(waiter: WaiterId)

  /** The store is well formed and every queued waiter is distinct and already issued. */
  ghost predicate Valid<V>(c: Cache<V>)
  {
    && LruStore.Valid(c.store)
    && Unique(c.subscribes)
    && IssuedBelow(c.subscribes, c.nextWaiter)
  }

  /** JavaScript's `option || fallback` on a number: an absent option or 0 falls back. */
  function OrNumber(o: Option<int>, fallback: int): (r: int)
    ensures o.Some? && o.value != 0 ==> r == o.value
    ensures o.None? || o.value == 0 ==> r == fallback
    ensures fallback != 0 ==> r != 0
  {
    if o.Some? && o.value != 0 then o.value else fallback
  }

  /**
    The constructor (lines 42-50): empty store and broker; capacity defaults to 20
    entries and the time to live to 10 seconds, kept in milliseconds.
   */
  function New<V>(opts: Options): (c: Cache<V>)
    ensures Valid(c)
    ensures c.store.order == [] && c.store.entries == map[] && c.subscribes == map[]
    ensures c.config.maxCache != 0
    ensures c.config.cacheTime != 0 && c.config.cacheTime % 1000 == 0
    ensures opts.maxCache.Some? && opts.maxCache.value != 0 ==> c.config.maxCache == opts.maxCache.value
    ensures opts.maxCache.None? || opts.maxCache == Some(0) ==> c.config.maxCache == 20
    ensures opts.cacheTime.Some? && opts.cacheTime.value != 0 ==> c.config.cacheTime == 1000 * opts.cacheTime.value
    ensures opts.cacheTime.None? || opts.cacheTime == Some(0) ==> c.config.cacheTime == 10000
    ensures opts.blackList.Some? ==> c.config.blackList == opts.blackList.value
    ensures opts.blackList.None? ==> c.config.blackList == []
    ensures c.config.storage <==> opts.storage == Some(true)
    ensures c.config.useNotice <==> opts.useNotice == Some(true)
  {
    var blackList := if opts.blackList.Some? then opts.blackList.value else [];
    var storage := opts.storage == Some(true);
    var useNotice := opts.useNotice == Some(true);
    Cache(
      Config(OrNumber(opts.maxCache, 20), OrNumber(opts.cacheTime, 10) * 1000, storage, blackList, useNotice),
      Empty(),
      map[],
      0)
  }

  /**
    `blackList.includes(key)` (lines 68 and 87): some position of the blacklist holds
    the raw key. The comparison is on the raw key, before hashing.
   */
  predicate Blocked<V>(c: Cache<V>, key: string)
  {
    key in c.config.blackList
  }

  /** There is an entry under `h` and it has not expired at `now`. */
  predicate Live<V>(c: Cache<V>, h: HashKey, now: int)
  {
    h in c.store.entries && !Expired(c.store.entries[h], now, c.config.cacheTime)
  }

  /**
    `has` (lines 62-65): an entry exists under the key's hash, expired or not; the
    blacklist is not consulted. In a well-formed store that means the hash is in the
    recency order.
   */
  predicate Has<V>(c: Cache<V>, hash: Hasher, key: string): (r: bool)
    ensures LruStore.Valid(c.store) ==> (r <==> hash(key) in c.store.order)
  {
    hash(key) in c.store.entries
  }

  /**
    `handleNotice` (lines 149-161), reached on a miss with notification on: when a
    fetch is already tracked the caller is queued under a fresh waiter, otherwise it
    becomes the producer, receives `null`, and an empty queue starts tracking.
   */
  function HandleNotice<V>(c: Cache<V>, h: HashKey): (r: (Cache<V>, Reply<V>))
    requires Valid(c)
    ensures Valid(r.0)
    ensures r.0.config == c.config && r.0.store == c.store
    ensures SameElsewhere(c.subscribes, r.0.subscribes, h)
    ensures h in c.subscribes ==>
              && r.1 == Pending(c.nextWaiter)
              && !Registered(c.subscribes, r.1.waiter)
              && h in r.0.subscribes && r.0.subscribes[h] == c.subscribes[h] + [r.1.waiter]
              && r.0.nextWaiter == c.nextWaiter + 1
    ensures h !in c.subscribes ==>
              && r.1 == Null
              && h in r.0.subscribes && r.0.subscribes[h] == []
              && r.0.nextWaiter == c.nextWaiter
  {
    if h in c.subscribes then
      var w := c.nextWaiter;
      var subs := Subscribe(c.subscribes, h, w);
      assert subs[h] == c.subscribes[h] + [w];
      (c.(subscribes := subs, nextWaiter := w + 1), Pending(w))
    else
      var subs := BeginTracking(c.subscribes, h);
      assert IssuedBelow(subs, c.nextWaiter) && Unique(subs) by {
        forall g, i | g in subs && 0 <= i < |subs[g]| ensures subs[g][i] < c.nextWaiter {
          assert g != h;
        }
        forall g1, g2, i, j |
          g1 in subs && g2 in subs && 0 <= i < |subs[g1]| && 0 <= j < |subs[g2]| && subs[g1][i] == subs[g2][j]
          ensures g1 == g2 && i == j
        {
          assert g1 != h && g2 != h;
        }
      }
      (c.(subscribes := subs), Null)
  }

  /** A miss without a live entry: `null`, or the dedup protocol when notification is on. */
  function Miss<V>(c: Cache<V>, h: HashKey): (r: (Cache<V>, Reply<V>))
    requires Valid(c)
    ensures Valid(r.0) && r.0.config == c.config && r.0.store == c.store
    ensures !r.1.Resolved?
  {
    if c.config.useNotice then HandleNotice(c, h) else (c, Null)
  }

  /**
    `get` (lines 67-84 with `isExpired`, lines 52-60).
    A blacklisted key answers `null` at once and changes nothing. A live entry is
    returned and moved to the back; no entry's value or time changes. An expired
    entry is left in place (lazy expiry). With notification on, a key without an
    entry is queued behind a tracked fetch or elects the caller as producer, while
    an expired entry first drops the key's queue without settling it, so the caller
    always becomes the producer.
   */
  function Get<V>(c: Cache<V>, hash: Hasher, key: string, now: int): (r: (Cache<V>, Reply<V>))
    requires Valid(c)
    ensures Valid(r.0)
    ensures r.0.config == c.config && r.0.store.entries == c.store.entries
    ensures Blocked(c, key) ==> r == (c, Null)
    ensures r.1.Resolved? <==> !Blocked(c, key) && Live(c, hash(key), now)
    ensures r.1.Resolved? ==>
              && r.1.value == c.store.entries[hash(key)].data
              && r.0.subscribes == c.subscribes
              && r.0.store.order[|r.0.store.order| - 1] == hash(key)
              && (forall i :: 0 <= i < |c.store.order| && c.store.order[i] == hash(key) ==>
                    r.0.store.order == c.store.order[..i] + c.store.order[i + 1..] + [hash(key)])
    ensures !r.1.Resolved? ==> r.0.store == c.store
    ensures r.1.Pending? <==>
              && !Blocked(c, key) && c.config.useNotice
              && hash(key) !in c.store.entries && hash(key) in c.subscribes
    ensures r.1.Pending? ==>
              && r.1.waiter == c.nextWaiter && !Registered(c.subscribes, r.1.waiter)
              && r.0.subscribes == c.subscribes[hash(key) := c.subscribes[hash(key)] + [r.1.waiter]]
    ensures !r.1.Pending? ==> r.0.nextWaiter == c.nextWaiter
    ensures !Blocked(c, key) && c.config.useNotice && !Live(c, hash(key), now) && r.1.Null? ==>
              r.0.subscribes == c.subscribes[hash(key) := []]
    ensures Blocked(c, key) || !c.config.useNotice ==> r.0.subscribes == c.subscribes
  {
    if key in c.config.blackList then (c, Null)
    else
      var h := hash(key);
      if h !in c.store.entries then
        var r := Miss(c, h);
        assert c.config.useNotice ==> r.0.subscribes == c.subscribes[h := if h in c.subscribes then c.subscribes[h] + [c.nextWaiter] else []];
        r
      else if Expired(c.store.entries[h], now, c.config.cacheTime) then
        var c1 := if c.config.useNotice then c.(subscribes := c.subscribes - {h}) else c;
        var r := Miss(c1, h);
        assert c.config.useNotice ==> r.0.subscribes == c.subscribes[h := []];
        r
      else
        (c.(store := Promote(c.store, h)), Resolved(c.store.entries[h].data))
  }

  /**
    `set` (lines 86-106). A blacklisted key changes nothing. Otherwise the value is
    stored under the key's hash at the back, stamped `now` (see `LruStore.Put` for
    eviction), and with notification on every waiter queued for that hash is
    resolved with the value, once each, in arrival order, and the queue is removed.
   */
  function Set<V>(c: Cache<V>, hash: Hasher, key: string, v: V, now: int): (r: (Cache<V>, seq<Event<V>>))
    requires Valid(c)
    ensures Valid(r.0)
    ensures r.0.config == c.config && r.0.nextWaiter == c.nextWaiter
    ensures Blocked(c, key) ==> r == (c, [])
    ensures !Blocked(c, key) ==> r.0.store == Put(c.store, hash(key), v, now, c.config.maxCache)
    ensures !Blocked(c, key) ==>
              && hash(key) in r.0.store.entries
              && r.0.store.entries[hash(key)] == Entry(v, now)
              && r.0.store.order[|r.0.store.order| - 1] == hash(key)
              && (forall j :: j in r.0.store.entries && j != hash(key) ==>
                    j in c.store.entries && r.0.store.entries[j] == c.store.entries[j])
    ensures 1 <= c.config.maxCache && |c.store.order| <= c.config.maxCache ==>
              |r.0.store.order| <= c.config.maxCache
    ensures !Blocked(c, key) && c.config.useNotice ==>
              && hash(key) !in r.0.subscribes
              && Waiters(r.1) == (if hash(key) in c.subscribes then c.subscribes[hash(key)] else [])
              && (forall i :: 0 <= i < |r.1| ==> r.1[i].outcome == Resolve(v))
    ensures Blocked(c, key) || !c.config.useNotice ==> r.0.subscribes == c.subscribes && r.1 == []
    ensures SameElsewhere(c.subscribes, r.0.subscribes, hash(key))
  {
    if key in c.config.blackList then (c, [])
    else
      var h := hash(key);
      var store := Put(c.store, h, v, now, c.config.maxCache);
      if c.config.useNotice then
        var (subs, events) := Notify(c.subscribes, h, Resolve(v));
        NotifySettlesOnce(c.subscribes, h, Resolve(v), c.nextWaiter);
        (c.(store := store, subscribes := subs), events)
      else
        (c.(store := store), [])
  }

  /**
    `noticeReject` (lines 195-201): a producer that failed reports it; every waiter
    queued for the key's hash is rejected, once each, in arrival order, and the
    queue is removed. Without a queue nothing changes. Neither the blacklist nor
    the notification switch is consulted, and the store is untouched.
   */
  function NoticeReject<V>(c: Cache<V>, hash: Hasher, key: string): (r: (Cache<V>, seq<Event<V>>))
    requires Valid(c)
    ensures Valid(r.0)
    ensures r.0.config == c.config && r.0.store == c.store && r.0.nextWaiter == c.nextWaiter
    ensures hash(key) !in r.0.subscribes
    ensures hash(key) in c.subscribes ==> Waiters(r.1) == c.subscribes[hash(key)]
    ensures forall i :: 0 <= i < |r.1| ==> r.1[i].outcome == Reject
    ensures hash(key) !in c.subscribes ==> r == (c, [])
    ensures SameElsewhere(c.subscribes, r.0.subscribes, hash(key))
  {
    var h := hash(key);
    if h in c.subscribes then
      var reject: Outcome<V> := Reject;
      var (subs, events) := Notify(c.subscribes, h, reject);
      NotifySettlesOnce(c.subscribes, h, reject, c.nextWaiter);
      (c.(subscribes := subs), events)
    else
      (c, [])
  }

  /**
    `delete` (lines 108-112): only the entry under the key's hash goes; the other
    keys keep their entries and relative order, and pending waiters are untouched.
   */
  function Delete<V>(c: Cache<V>, hash: Hasher, key: string): (r: Cache<V>)
    requires Valid(c)
    ensures Valid(r)
    ensures r.config == c.config && r.subscribes == c.subscribes && r.nextWaiter == c.nextWaiter
    ensures !Has(r, hash, key)
    ensures r.store.entries.Keys == c.store.entries.Keys - {hash(key)}
    ensures forall j :: j in r.store.entries ==> r.store.entries[j] == c.store.entries[j]
    ensures forall i :: 0 <= i < |c.store.order| && c.store.order[i] == hash(key) ==>
              r.store.order == c.store.order[..i] + c.store.order[i + 1..]
    ensures hash(key) !in c.store.entries ==> r == c
  {
    c.(store := Remove(c.store, hash(key)))
  }

  /** `clear` (lines 114-117): no key is present afterwards; pending waiters are untouched. */
  function Clear<V>(c: Cache<V>): (r: Cache<V>)
    requires Valid(c)
    ensures Valid(r)
    ensures forall hash: Hasher, key :: !Has(r, hash, key)
    ensures r.config == c.config && r.subscribes == c.subscribes && r.nextWaiter == c.nextWaiter
  {
    c.(store := Empty())
  }

  /** `setMaxCache` (lines 141-143): takes effect on the next `set`; nothing is evicted now. */
  function SetMaxCache<V>(c: Cache<V>, num: int): (r: Cache<V>)
    ensures r.config.maxCache == num
    ensures r.store == c.store && r.subscribes == c.subscribes && r.nextWaiter == c.nextWaiter
    ensures r.config.(maxCache := c.config.maxCache) == c.config
  {
    c.(config := c.config.(maxCache := num))
  }

  /** `setCacheTime` (lines 137-139): the time to live is given in seconds and kept in milliseconds. */
  function SetCacheTime<V>(c: Cache<V>, seconds: int): (r: Cache<V>)
    ensures r.config.cacheTime == 1000 * seconds
    ensures r.store == c.store && r.subscribes == c.subscribes && r.nextWaiter == c.nextWaiter
    ensures r.config.(cacheTime := c.config.cacheTime) == c.config
  {
    c.(config := c.config.(cacheTime := seconds * 1000))
  }

  /**
    `setBlackList` (lines 133-135): the list is appended, so every key blocked before
    stays blocked and the given keys become blocked too.
   */
  function SetBlackList<V>(c: Cache<V>, list: seq<string>): (r: Cache<V>)
    ensures forall key :: Blocked(r, key) <==> Blocked(c, key) || key in list
    ensures c.config.blackList <= r.config.blackList
    ensures r.store == c.store && r.subscribes == c.subscribes && r.nextWaiter == c.nextWaiter
    ensures r.config.(blackList := c.config.blackList) == c.config
  {
    c.(config := c.config.(blackList := c.config.blackList + list))
  }

  /** `setUseNotice` (lines 145-147): switches deduplication for subsequent calls only. */
  function SetUseNotice<V>(c: Cache<V>, on: bool): (r: Cache<V>)
    ensures r.config.useNotice == on
    ensures r.store == c.store && r.subscribes == c.subscribes && r.nextWaiter == c.nextWaiter
    ensures r.config.(useNotice := c.config.useNotice) == c.config
  {
    c.(config := c.config.(useNotice := on))
  }
}
