/**
  Properties that relate several cache operations: round trips between `set` and
  `get`, the capacity law over a run of `set` calls, the deduplication protocol
  end to end, and the consequences of hashing before storing.
 */
module CacheProperties {
  import opened LruStore
  import opened Broker
  import opened LruCache

  /* ---------- set followed by get ---------- */

  /**
    A value just stored is read back while its age is at most the time to live,
    including exactly at the boundary, since expiry needs strictly more.
   */
  lemma SetThenGetHits<V>(c: Cache<V>, hash: Hasher, key: string, v: V, t: int, now: int)
    requires LruCache.Valid(c) && !Blocked(c, key)
    requires now - t <= c.config.cacheTime
    ensures var c1 := Set(c, hash, key, v, t).0;
      Get(c1, hash, key, now).1 == Resolved(v)
  {
  }

  /**
    Past the time to live the value is no longer returned, yet the entry is not
    removed: `has` still reports it (lazy expiry).
   */
  lemma SetThenGetExpires<V>(c: Cache<V>, hash: Hasher, key: string, v: V, t: int, now: int)
    requires LruCache.Valid(c) && !Blocked(c, key)
    requires now - t > c.config.cacheTime
    ensures var c1 := Set(c, hash, key, v, t).0;
      var (c2, reply) := Get(c1, hash, key, now);
      !reply.Resolved? && Has(c2, hash, key)
  {
  }

  /** After `setCacheTime(seconds)` a stored value is served exactly while its age is at most `1000 * seconds` milliseconds. */
  lemma CacheTimeGovernsExpiry<V>(c: Cache<V>, hash: Hasher, key: string, seconds: int, v: V, t: int, now: int)
    requires LruCache.Valid(c) && !Blocked(c, key)
    ensures var c1 := Set(SetCacheTime(c, seconds), hash, key, v, t).0;
      Get(c1, hash, key, now).1.Resolved? <==> now - t <= 1000 * seconds
  {
    var c0 := SetCacheTime(c, seconds);
    assert LruCache.Valid(c0) && !Blocked(c0, key);
  }

  /**
    Expiry is judged against the current time to live on every read, and an expired
    entry is kept. So an entry that a read found expired is served again once
    `setCacheTime` raises the time to live past its age.
   */
  lemma RaisingCacheTimeRevives<V>(c: Cache<V>, hash: Hasher, key: string, seconds: int, now: int)
    requires LruCache.Valid(c) && !Blocked(c, key) && Has(c, hash, key)
    requires Expired(c.store.entries[hash(key)], now, c.config.cacheTime)
    requires now - c.store.entries[hash(key)].storeTime <= 1000 * seconds
    ensures var (c1, reply) := Get(c, hash, key, now);
      && reply == Null
      && Get(SetCacheTime(c1, seconds), hash, key, now).1 == Resolved(c.store.entries[hash(key)].data)
  {
  }

  /* ---------- hashing ---------- */

  /**
    The store is keyed by hash, not by raw key: two raw keys that share a hash
    share one entry, so a value set under one is read under the other.
   */
  lemma CollidingKeysShareEntry<V>(c: Cache<V>, hash: Hasher, a: string, b: string, v: V, t: int)
    requires LruCache.Valid(c) && !Blocked(c, a) && !Blocked(c, b)
    requires hash(a) == hash(b) && 0 <= c.config.cacheTime
    ensures Get(Set(c, hash, a, v, t).0, hash, b, t).1 == Resolved(v)
  {
  }

  /**
    `has` does not consult the blacklist: a blocked key is reported present when a
    key sharing its hash has been stored.
   */
  lemma BlockedKeyVisibleToHas<V>(c: Cache<V>, hash: Hasher, a: string, b: string, v: V, t: int)
    requires LruCache.Valid(c) && !Blocked(c, a) && Blocked(c, b)
    requires hash(a) == hash(b)
    ensures Has(Set(c, hash, a, v, t).0, hash, b)
    ensures Get(Set(c, hash, a, v, t).0, hash, b, t).1 == Null
  {
  }

  /** A key blacklisted after it was stored stays visible to `has` but is never read or overwritten. */
  lemma BlacklistIsNotRetroactive<V>(c: Cache<V>, hash: Hasher, key: string, v: V, t: int)
    requires LruCache.Valid(c) && Has(c, hash, key)
    ensures var c1 := SetBlackList(c, [key]);
      && Has(c1, hash, key)
      && Get(c1, hash, key, t) == (c1, Null)
      && Set(c1, hash, key, v, t) == (c1, [])
  {
    assert Blocked(SetBlackList(c, [key]), key);
  }

  /**
    The blacklist is checked on the raw key: a blocked key reads `null` even when
    an unblocked key with the same hash has just stored a fresh value, which that
    key reads back.
   */
  lemma BlacklistIsPerRawKey<V>(c: Cache<V>, hash: Hasher, a: string, b: string, v: V, t: int, now: int)
    requires LruCache.Valid(c) && hash(a) == hash(b) && Blocked(c, a) && !Blocked(c, b)
    requires 0 <= now - t <= c.config.cacheTime
    ensures var c1 := Set(c, hash, b, v, t).0;
      && Has(c1, hash, a)
      && Get(c1, hash, a, now) == (c1, Null)
      && Get(c1, hash, b, now).1 == Resolved(v)
  {
  }

  /**
    `get` answers with a value exactly when `has` holds for the key, the key is not
    blacklisted and its entry has not expired; and a `get` never changes what `has`
    answers for any key.
   */
  lemma GetAgreesWithHas<V>(c: Cache<V>, hash: Hasher, key: string, other: string, now: int)
    requires LruCache.Valid(c)
    ensures var (c1, reply) := Get(c, hash, key, now);
      && (reply.Resolved? <==>
            && !Blocked(c, key) && Has(c, hash, key)
            && !Expired(c.store.entries[hash(key)], now, c.config.cacheTime))
      && (Has(c1, hash, other) <==> Has(c, hash, other))
  {
  }

  /* ---------- recency order ---------- */

  /**
    The recency example: with room for two entries, `set(A)`, `set(B)`, `get(A)`,
    `set(C)` evicts B, because reading A moved it behind B.
   */
  lemma ReadProtectsFromEviction<V>(c0: Cache<V>, hash: Hasher, a: string, b: string, d: string, va: V, vb: V, vd: V, now: int)
    requires LruCache.Valid(c0) && c0.store.order == [] && c0.config.maxCache == 2
    requires 0 <= c0.config.cacheTime && c0.config.blackList == []
    requires hash(a) != hash(b) && hash(a) != hash(d) && hash(b) != hash(d)
    ensures var c1 := Set(c0, hash, a, va, now).0;
      var c2 := Set(c1, hash, b, vb, now).0;
      var (c3, reply) := Get(c2, hash, a, now);
      var c4 := Set(c3, hash, d, vd, now).0;
      && reply == Resolved(va)
      && Has(c4, hash, a) && Has(c4, hash, d) && !Has(c4, hash, b)
  {
    FillTwo(c0, hash, a, b, va, vb, now);
    ReadThenSet(Set(Set(c0, hash, a, va, now).0, hash, b, vb, now).0, hash, a, d, vd, now);
  }

  /** Two `set` calls of distinct hashes on an empty cache of capacity 2 store both, in call order. */
  lemma FillTwo<V>(c0: Cache<V>, hash: Hasher, a: string, b: string, va: V, vb: V, now: int)
    requires LruCache.Valid(c0) && c0.store.order == [] && c0.config.maxCache == 2
    requires !Blocked(c0, a) && !Blocked(c0, b) && hash(a) != hash(b)
    ensures var c2 := Set(Set(c0, hash, a, va, now).0, hash, b, vb, now).0;
      && c2.config == c0.config
      && c2.store.order == [hash(a), hash(b)]
      && c2.store.entries[hash(a)] == Entry(va, now)
  {
    var c1 := Set(c0, hash, a, va, now).0;
    SetFreshKey(c0, hash, a, va, now);
    SetFreshKey(c1, hash, b, vb, now);
  }

  /**
    On a full cache of capacity 2 whose front entry is live, reading the front key
    returns its value and moves it behind the other, so the next new key evicts
    the other entry.
   */
  lemma ReadThenSet<V>(c: Cache<V>, hash: Hasher, a: string, d: string, vd: V, now: int)
    requires LruCache.Valid(c) && c.config.maxCache == 2 && !Blocked(c, a) && !Blocked(c, d)
    requires |c.store.order| == 2 && c.store.order[0] == hash(a) && Live(c, hash(a), now)
    requires hash(d) !in c.store.entries
    ensures var (c3, reply) := Get(c, hash, a, now);
      var c4 := Set(c3, hash, d, vd, now).0;
      && reply == Resolved(c.store.entries[hash(a)].data)
      && c4.store.order == [hash(a), hash(d)]
  {
    var (c3, reply) := Get(c, hash, a, now);
    assert reply == Resolved(c.store.entries[hash(a)].data);
    assert c3.store.order == [c.store.order[1], hash(a)] by {
      assert c.store.order[..0] + c.store.order[1..] == [c.store.order[1]];
    }
    assert c3.config == c.config && c3.store.order[1..] == [hash(a)];
    SetFreshKey(c3, hash, d, vd, now);
  }

  /** The same example on a freshly constructed cache with `maxCache: 2`. */
  lemma ReadProtectsFromEvictionNew<V>(hash: Hasher, a: string, b: string, d: string, va: V, vb: V, vd: V, now: int)
    requires hash(a) != hash(b) && hash(a) != hash(d) && hash(b) != hash(d)
    ensures var c0 := New<V>(Options(Some(2), None, None, None, None));
      var c1 := Set(c0, hash, a, va, now).0;
      var c2 := Set(c1, hash, b, vb, now).0;
      var (c3, reply) := Get(c2, hash, a, now);
      var c4 := Set(c3, hash, d, vd, now).0;
      && reply == Resolved(va)
      && Has(c4, hash, a) && Has(c4, hash, d) && !Has(c4, hash, b)
  {
    ReadProtectsFromEviction(New<V>(Options(Some(2), None, None, None, None)), hash, a, b, d, va, vb, vd, now);
  }

  /** `set` of a raw key whose hash is not stored: it is appended, evicting the front key exactly when the store is full. */
  lemma SetFreshKey<V>(c: Cache<V>, hash: Hasher, key: string, v: V, now: int)
    requires LruCache.Valid(c) && !Blocked(c, key) && !Has(c, hash, key)
    ensures var r := Set(c, hash, key, v, now).0;
      r.store.order == (if 0 < |c.store.order| && c.config.maxCache <= |c.store.order|
                        then c.store.order[1..] else c.store.order) + [hash(key)]
  {
    if 0 < |c.store.order| && c.config.maxCache <= |c.store.order| {
      PutEvictsFront(c.store, hash(key), v, now, c.config.maxCache);
    } else {
      PutAppends(c.store, hash(key), v, now, c.config.maxCache);
    }
  }

  /** Shrinking the capacity evicts nothing by itself; the next new key still evicts just one entry, so the store stays over the new bound. */
  lemma ShrinkEvictsOneAtATime<V>(c: Cache<V>, hash: Hasher, key: string, num: int, v: V, t: int)
    requires LruCache.Valid(c) && !Blocked(c, key) && !Has(c, hash, key)
    requires 0 < num < |c.store.order|
    ensures var c1 := SetMaxCache(c, num);
      && c1.store == c.store
      && |Set(c1, hash, key, v, t).0.store.order| == |c.store.order|
  {
    PutEvictsFront(c.store, hash(key), v, t, num);
  }

  /* ---------- capacity over a run of set calls ---------- */

  datatype Write<V> = Write(key: HashKey, value: V, time: int)

  /** The store after applying `ws` in order, each as a `set`. */
  function PutAll<V>(s: Store<V>, ws: seq<Write<V>>, maxCache: int): (r: Store<V>)
    requires LruStore.Valid(s)
    ensures LruStore.Valid(r)
    decreases |ws|
  {
    if |ws| == 0 then s
    else
      var w := ws[|ws| - 1];
      Put(PutAll(s, ws[..|ws| - 1], maxCache), w.key, w.value, w.time, maxCache)
  }

  ghost function KeysOf<V>(ws: seq<Write<V>>): (r: set<HashKey>)
  {
    set i | 0 <= i < |ws| :: ws[i].key
  }

  function Min(a: int, b: int): (r: int)
  {
    if a <= b then a else b
  }

  /**
    The store holds only keys from `written`, is within the capacity, and while
    below the capacity holds every key of `written`.
   */
  ghost predicate Tracks<V>(s: Store<V>, written: set<HashKey>, maxCache: int)
  {
    && Elements(s.order) <= written
    && |s.order| <= maxCache
    && (|s.order| < maxCache ==> Elements(s.order) == written)
  }

  /** One `set` keeps `Tracks` with the written keys grown by the key just set. */
  lemma PutStep<V>(p: Store<V>, k: HashKey, v: V, t: int, maxCache: int, written: set<HashKey>)
    requires LruStore.Valid(p) && 1 <= maxCache && Tracks(p, written, maxCache)
    ensures Tracks(Put(p, k, v, t, maxCache), written + {k}, maxCache)
  {
    if k in p.entries {
      OverwriteStep(p, k, v, t, maxCache, written);
    } else if 0 < |p.order| && maxCache <= |p.order| {
      EvictStep(p, k, v, t, maxCache, written);
    } else {
      AppendStep(p, k, v, t, maxCache, written);
    }
  }

  lemma OverwriteStep<V>(p: Store<V>, k: HashKey, v: V, t: int, maxCache: int, written: set<HashKey>)
    requires LruStore.Valid(p) && 1 <= maxCache && Tracks(p, written, maxCache)
    requires k in p.entries
    ensures Tracks(Put(p, k, v, t, maxCache), written + {k}, maxCache)
  {
    var s := Put(p, k, v, t, maxCache);
    PutOverwrite(p, k, v, t, maxCache);
    assert Elements(s.order) == s.entries.Keys == p.entries.Keys == Elements(p.order);
    assert written + {k} == written;
  }

  lemma EvictStep<V>(p: Store<V>, k: HashKey, v: V, t: int, maxCache: int, written: set<HashKey>)
    requires LruStore.Valid(p) && 1 <= maxCache && Tracks(p, written, maxCache)
    requires k !in p.entries && 0 < |p.order| && maxCache <= |p.order|
    ensures Tracks(Put(p, k, v, t, maxCache), written + {k}, maxCache)
  {
    var s := Put(p, k, v, t, maxCache);
    PutEvictsFront(p, k, v, t, maxCache);
    assert Elements(s.order) == s.entries.Keys;
    assert Elements(p.order) == p.entries.Keys;
  }

  lemma AppendStep<V>(p: Store<V>, k: HashKey, v: V, t: int, maxCache: int, written: set<HashKey>)
    requires LruStore.Valid(p) && 1 <= maxCache && Tracks(p, written, maxCache)
    requires k !in p.entries && !(0 < |p.order| && maxCache <= |p.order|)
    ensures Tracks(Put(p, k, v, t, maxCache), written + {k}, maxCache)
  {
    var s := Put(p, k, v, t, maxCache);
    PutAppends(p, k, v, t, maxCache);
    assert Elements(s.order) == Elements(p.order) + {k};
  }

  lemma KeysOfSnoc<V>(ws: seq<Write<V>>)
    requires |ws| > 0
    ensures KeysOf(ws) == KeysOf(ws[..|ws| - 1]) + {ws[|ws| - 1].key}
  {
    var prefix := ws[..|ws| - 1];
    forall x | x in KeysOf(ws) ensures x in KeysOf(prefix) + {ws[|ws| - 1].key} {
      var i :| 0 <= i < |ws| && ws[i].key == x;
      if i < |ws| - 1 {
        assert prefix[i] == ws[i];
      }
    }
    forall x | x in KeysOf(prefix) ensures x in KeysOf(ws) {
      var i :| 0 <= i < |prefix| && prefix[i].key == x;
      assert ws[i] == prefix[i];
    }
  }

  /**
    While the store has never been full it holds exactly the keys written so far;
    it never exceeds the capacity and holds no key that was not written.
   */
  lemma {:induction false} PutAllInvariant<V>(s0: Store<V>, ws: seq<Write<V>>, maxCache: int)
    requires LruStore.Valid(s0) && |s0.order| == 0 && 1 <= maxCache
    ensures Tracks(PutAll(s0, ws, maxCache), KeysOf(ws), maxCache)
    decreases |ws|
  {
    if |ws| > 0 {
      var prefix := ws[..|ws| - 1];
      var w := ws[|ws| - 1];
      PutAllInvariant(s0, prefix, maxCache);
      KeysOfSnoc(ws);
      PutStep(PutAll(s0, prefix, maxCache), w.key, w.value, w.time, maxCache, KeysOf(prefix));
    }
  }

  /** Starting empty, the size after a run of `set` calls is the smaller of the capacity and the number of distinct keys written. */
  lemma CapacityLaw<V>(s0: Store<V>, ws: seq<Write<V>>, maxCache: int)
    requires LruStore.Valid(s0) && |s0.order| == 0 && 1 <= maxCache
    ensures Size(PutAll(s0, ws, maxCache)) == Min(maxCache, |KeysOf(ws)|)
  {
    PutAllInvariant(s0, ws, maxCache);
    TracksSize(PutAll(s0, ws, maxCache), KeysOf(ws), maxCache);
  }

  /**
    A store that tracks `written` holds min(capacity, |written|) entries: below the
    capacity it holds all of `written`, and at the capacity it cannot hold more keys
    than were written.
   */
  lemma TracksSize<V>(s: Store<V>, written: set<HashKey>, maxCache: int)
    requires LruStore.Valid(s) && Tracks(s, written, maxCache)
    ensures Size(s) == Min(maxCache, |written|)
  {
    SizeIsOrderLength(s);
    DistinctCardinality(s.order);
    if |s.order| == maxCache {
      SubsetCardinality(Elements(s.order), written);
    }
  }

  lemma {:induction false} SubsetCardinality(a: set<HashKey>, b: set<HashKey>)
    requires a <= b
    ensures |a| <= |b|
    decreases |b|
  {
    if a != {} {
      var x :| x in a;
      SubsetCardinality(a - {x}, b - {x});
    }
  }

  /* ---------- deduplication ---------- */

  /**
    Two misses on an uncached key with notification on: the first caller becomes the
    producer and gets `null`, the second is queued; the producer's `set` resolves
    exactly the queued waiter with the value and stops tracking the key.
   */
  lemma DedupFanOut<V>(c: Cache<V>, hash: Hasher, key: string, v: V, now: int)
    requires LruCache.Valid(c) && c.config.useNotice && !Blocked(c, key)
    requires !Has(c, hash, key) && hash(key) !in c.subscribes
    ensures var (c1, first) := Get(c, hash, key, now);
      var (c2, second) := Get(c1, hash, key, now);
      var (c3, events) := Set(c2, hash, key, v, now);
      && first == Null
      && second.Pending?
      && events == [Event(second.waiter, Resolve(v))]
      && hash(key) !in c3.subscribes
  {
    var (c1, first) := Get(c, hash, key, now);
    var (c2, second) := Get(c1, hash, key, now);
    var (c3, events) := Set(c2, hash, key, v, now);
    assert c2.subscribes[hash(key)] == [second.waiter];
    assert Waiters(events) == [second.waiter];
    assert events[0] == Event(second.waiter, Resolve(v));
  }

  /**
    A producer that declines instead: every queued waiter is rejected, and the next
    miss on the key elects a fresh producer.
   */
  lemma DeclineReelects<V>(c: Cache<V>, hash: Hasher, key: string, now: int)
    requires LruCache.Valid(c) && c.config.useNotice && !Blocked(c, key)
    requires !Has(c, hash, key) && hash(key) !in c.subscribes
    ensures var (c1, first) := Get(c, hash, key, now);
      var (c2, second) := Get(c1, hash, key, now);
      var (c3, events) := NoticeReject(c2, hash, key);
      var (c4, third) := Get(c3, hash, key, now);
      && first == Null && second.Pending?
      && events == [Event(second.waiter, Reject)]
      && third == Null
      && c4.subscribes[hash(key)] == []
  {
    var (c1, first) := Get(c, hash, key, now);
    var (c2, second) := Get(c1, hash, key, now);
    var (c3, events) := NoticeReject(c2, hash, key);
    assert c2.subscribes[hash(key)] == [second.waiter];
    assert Waiters(events) == [second.waiter];
    assert events[0] == Event(second.waiter, Reject);
  }

  /**
    A waiter queued by `get` is settled by the producer's `set` exactly once: it
    occurs once among the events, and afterwards it is queued nowhere, so no later
    `set` or `noticeReject` can settle it again.
   */
  lemma QueuedWaiterSettledOnce<V>(c: Cache<V>, hash: Hasher, key: string, v: V, now: int, later: int)
    requires LruCache.Valid(c)
    ensures var (c1, reply) := Get(c, hash, key, now);
      var (c2, events) := Set(c1, hash, key, v, later);
      reply.Pending? ==>
        && (exists i :: 0 <= i < |events| && events[i] == Event(reply.waiter, Resolve(v)))
        && (forall i, j :: 0 <= i < j < |events| ==> events[i].waiter != events[j].waiter)
        && !Registered(c2.subscribes, reply.waiter)
  {
    var (c1, reply) := Get(c, hash, key, now);
    if reply.Pending? {
      var h := hash(key);
      NotifySettlesOnce(c1.subscribes, h, Resolve(v), c1.nextWaiter);
      var (c2, events) := Set(c1, hash, key, v, later);
      var last := |c1.subscribes[h]| - 1;
      assert events[last].waiter == reply.waiter;
    }
  }

  /**
    An entry that is present but expired defeats deduplication: `isExpired` drops
    the key's queue on every read, so two successive misses both get `null` and
    both become producers; nothing is queued behind them while the entry stays
    present and expired.
   */
  lemma ExpiredEntryElectsEveryCaller<V>(c: Cache<V>, hash: Hasher, key: string, now: int)
    requires LruCache.Valid(c) && c.config.useNotice && !Blocked(c, key)
    requires Has(c, hash, key) && !Live(c, hash(key), now)
    ensures var (c1, first) := Get(c, hash, key, now);
      var (c2, second) := Get(c1, hash, key, now);
      && first == Null && second == Null
      && c2.subscribes[hash(key)] == []
  {
  }

  /**
    An expired read with notification on discards the waiters queued for the key
    without settling them: none of them is queued any longer, and `get` produces no
    settlement events.
   */
  lemma ExpiredReadDropsWaiters<V>(c: Cache<V>, hash: Hasher, key: string, now: int)
    requires LruCache.Valid(c) && c.config.useNotice && !Blocked(c, key)
    requires Has(c, hash, key) && !Live(c, hash(key), now) && hash(key) in c.subscribes
    ensures var c1 := Get(c, hash, key, now).0;
      forall i :: 0 <= i < |c.subscribes[hash(key)]| ==> !Registered(c1.subscribes, c.subscribes[hash(key)][i])
  {
  }

  /**
    A producer elected by an expired read can still collect waiters: once the
    expired entry is gone (here by `delete`; eviction by a later `set` has the same
    effect), the empty queue the read left behind makes the next miss wait behind
    that producer instead of becoming one.
   */
  lemma ExpiredProducerCollectsWaiters<V>(c: Cache<V>, hash: Hasher, key: string, now: int)
    requires LruCache.Valid(c) && c.config.useNotice && !Blocked(c, key)
    requires Has(c, hash, key) && !Live(c, hash(key), now)
    ensures var (c1, first) := Get(c, hash, key, now);
      var (c2, second) := Get(Delete(c1, hash, key), hash, key, now);
      && first == Null
      && second == Pending(c.nextWaiter)
      && c2.subscribes[hash(key)] == [c.nextWaiter]
  {
  }

  /* ---------- delete and clear ---------- */

  /** `clear` forgets every entry but not the queues: a miss on a tracked key after `clear` is still queued behind the in-flight fetch. */
  lemma ClearKeepsQueues<V>(c: Cache<V>, hash: Hasher, key: string, now: int)
    requires LruCache.Valid(c) && c.config.useNotice && !Blocked(c, key) && hash(key) in c.subscribes
    ensures var (c1, reply) := Get(Clear(c), hash, key, now);
      reply == Pending(c.nextWaiter) && !Has(c1, hash, key)
  {
  }
}
