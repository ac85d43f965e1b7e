/**
  The eviction store behind the cache (the `requestCache` field of `LruCache`).

  The source keeps an insertion-ordered `Map<string, LruCacheData>` and uses its
  iteration order as the recency list: the front is the least recently used key,
  the back the most recently stored or read one. Here that map is split into the
  order of its keys (`order`, a sequence without repetitions) and the entries
  themselves (`entries`); `Valid` ties the two together.
 */
module LruStore {

  /** The hashed form of a caller's key (an md5 hex digest in the source). */
  type HashKey = string

  /** One cached value and the clock reading at which it was stored. */
  datatype Entry<V> = Entry(data: V, storeTime: int)

  datatype Store<V> = Store(order: seq<HashKey>, entries: map<HashKey, Entry<V>>)

  /** No key occurs twice in `q`. */
  ghost predicate Distinct(q: seq<HashKey>)
  {
    forall i, j :: 0 <= i < j < |q| ==> q[i] != q[j]
  }

  /** The order lists every stored key exactly once. */
  ghost predicate Valid<V>(s: Store<V>)
  {
    && Distinct(s.order)
    && (forall k :: k in s.order <==> k in s.entries)
  }

  ghost function Elements(q: seq<HashKey>): (r: set<HashKey>)
  {
    set k | k in q
  }

  /** The number of stored entries (`requestCache.size`). */
  function Size<V>(s: Store<V>): (r: nat)
  {
    |s.entries|
  }

  /** An empty store: the state after construction and after `clear`. */
  function Empty<V>(): (s: Store<V>)
    ensures Valid(s)
    ensures Size(s) == 0 && |s.order| == 0
    ensures forall k :: k !in s.entries
  {
    Store([], map[])
  }

  /**
    Lazy expiry test (lines 52-54): strictly more than `cacheTime` milliseconds have
    passed. The entry is still fresh at its deadline `storeTime + cacheTime`, and with
    a nonnegative time to live it is fresh at and before its store time.
   */
  predicate Expired<V>(e: Entry<V>, now: int, cacheTime: int): (r: bool)
    ensures !r <==> now <= e.storeTime + cacheTime
    ensures 0 <= cacheTime && now <= e.storeTime ==> !r
  {
    now - e.storeTime > cacheTime
  }

  /**
    For a fixed time to live, an entry expired at `now` is expired at every later
    time. The cache compares against its current `cacheTime` on every read, so
    raising the time to live can make an expired entry fresh again.
   */
  lemma ExpiryIsPermanent<V>(e: Entry<V>, now: int, later: int, cacheTime: int)
    requires Expired(e, now, cacheTime) && now <= later
    ensures Expired(e, later, cacheTime)
  {
  }

  lemma {:induction false} DistinctCardinality(q: seq<HashKey>)
    requires Distinct(q)
    ensures |Elements(q)| == |q|
    decreases |q|
  {
    if |q| > 0 {
      var tail := q[1..];
      assert Distinct(tail) by {
        forall i, j | 0 <= i < j < |tail| ensures tail[i] != tail[j] {
          assert tail[i] == q[i + 1] && tail[j] == q[j + 1];
        }
      }
      DistinctCardinality(tail);
      assert q[0] !in Elements(tail) by {
        forall i | 0 <= i < |tail| ensures tail[i] != q[0] {
          assert tail[i] == q[i + 1];
        }
      }
      assert Elements(q) == Elements(tail) + {q[0]} by {
        assert q == [q[0]] + tail;
      }
    }
  }

  /** In a valid store the entry count is the length of the order. */
  lemma SizeIsOrderLength<V>(s: Store<V>)
    requires Valid(s)
    ensures Size(s) == |s.order|
  {
    DistinctCardinality(s.order);
    assert s.entries.Keys == Elements(s.order);
  }

  /** `q` with `k` taken out and every other key in its old relative order. */
  function RemoveKey(q: seq<HashKey>, k: HashKey): (r: seq<HashKey>)
    ensures forall x :: x in r <==> x in q && x != k
    ensures |r| <= |q|
    ensures Distinct(q) ==> Distinct(r)
    ensures k !in q ==> r == q
    ensures Distinct(q) && k in q ==> |r| == |q| - 1
    decreases |q|
  {
    if |q| == 0 then []
    else
      var rest := RemoveKey(q[1..], k);
      if q[0] == k then rest
      else
        assert Distinct(q) ==> Distinct(q[1..]) by {
          if Distinct(q) {
            forall i, j | 0 <= i < j < |q[1..]| ensures q[1..][i] != q[1..][j] {
              assert q[1..][i] == q[i + 1] && q[1..][j] == q[j + 1];
            }
          }
        }
        assert Distinct(q) ==> q[0] !in q[1..];
        assert k !in q ==> q == [q[0]] + q[1..];
        [q[0]] + rest
  }

  /** Removing the key at position `i` of a repetition-free order closes the gap and keeps the rest in place. */
  lemma {:induction false} RemoveKeyAt(q: seq<HashKey>, i: nat)
    requires Distinct(q) && i < |q|
    ensures RemoveKey(q, q[i]) == q[..i] + q[i + 1..]
    decreases i
  {
    var tail := q[1..];
    if i == 0 {
      assert q[0] !in tail;
      assert RemoveKey(tail, q[0]) == tail;
    } else {
      assert Distinct(tail) by {
        forall a, b | 0 <= a < b < |tail| ensures tail[a] != tail[b] {
          assert tail[a] == q[a + 1] && tail[b] == q[b + 1];
        }
      }
      assert tail[i - 1] == q[i];
      RemoveKeyAt(tail, i - 1);
      assert q[0] != q[i];
      assert q[..i] + q[i + 1..] == [q[0]] + (tail[..i - 1] + tail[i..]);
    }
  }

  /**
    A read hit (`get`, lines 79-83): the key is deleted and re-inserted, so it moves
    to the back; the key set, every entry, and the relative order of the others stay.
   */
  function Promote<V>(s: Store<V>, k: HashKey): (r: Store<V>)
    requires Valid(s) && k in s.entries
    ensures Valid(r)
    ensures r.entries == s.entries
    ensures |r.order| == |s.order| && r.order[|r.order| - 1] == k
    ensures forall i :: 0 <= i < |s.order| && s.order[i] == k ==>
              r.order == s.order[..i] + s.order[i + 1..] + [k]
  {
    var rest := RemoveKey(s.order, k);
    assert forall i :: 0 <= i < |s.order| && s.order[i] == k ==> rest == s.order[..i] + s.order[i + 1..] by {
      forall i | 0 <= i < |s.order| && s.order[i] == k
        ensures rest == s.order[..i] + s.order[i + 1..]
      {
        RemoveKeyAt(s.order, i);
      }
    }
    assert Distinct(rest + [k]) by {
      forall i, j | 0 <= i < j < |rest + [k]| ensures (rest + [k])[i] != (rest + [k])[j] {
        if j == |rest| {
          assert (rest + [k])[i] == rest[i];
        } else {
          assert (rest + [k])[i] == rest[i] && (rest + [k])[j] == rest[j];
        }
      }
    }
    Store(rest + [k], s.entries)
  }

  /**
    The first half of `set` (lines 91-98): a present key is taken out of the order;
    otherwise, when the store is at or over capacity and nonempty, its front key is
    evicted. On an empty store the source's `keys().next().value` is `undefined` and
    its delete removes nothing, so nothing is evicted then.
   */
  function MakeRoom<V>(s: Store<V>, k: HashKey, maxCache: int): (r: Store<V>)
    requires Valid(s)
    ensures Valid(r)
    ensures k !in r.entries
    ensures forall j :: j in r.entries ==> j in s.entries && r.entries[j] == s.entries[j]
    ensures k in s.entries ==>
              && r.entries.Keys == s.entries.Keys - {k}
              && (forall i :: 0 <= i < |s.order| && s.order[i] == k ==>
                    r.order == s.order[..i] + s.order[i + 1..])
    ensures k !in s.entries && 0 < |s.order| && maxCache <= |s.order| ==>
              && r.entries.Keys == s.entries.Keys - {s.order[0]}
              && r.order == s.order[1..]
    ensures k !in s.entries && !(0 < |s.order| && maxCache <= |s.order|) ==> r == s
  {
    SizeIsOrderLength(s);
    if k in s.entries then
      assert forall i :: 0 <= i < |s.order| && s.order[i] == k ==>
               RemoveKey(s.order, k) == s.order[..i] + s.order[i + 1..] by {
        forall i | 0 <= i < |s.order| && s.order[i] == k
          ensures RemoveKey(s.order, k) == s.order[..i] + s.order[i + 1..]
        {
          RemoveKeyAt(s.order, i);
        }
      }
      Store(RemoveKey(s.order, k), s.entries - {k})
    else if |s.entries| >= maxCache && |s.order| > 0 then
      var front := s.order[0];
      RemoveKeyAt(s.order, 0);
      Store(RemoveKey(s.order, front), s.entries - {front})
    else
      s
  }

  /**
    `set` on the store (lines 91-104): the key ends up at the back holding the new
    value stamped `now`, every other surviving entry is untouched, and a capacity
    bound of at least one that held before still holds. Which key, if any, makes
    room is stated by `PutOverwrite`, `PutEvictsFront` and `PutAppends`.
   */
  function Put<V>(s: Store<V>, k: HashKey, v: V, now: int, maxCache: int): (r: Store<V>)
    requires Valid(s)
    ensures Valid(r)
    ensures k in r.entries && r.entries[k] == Entry(v, now)
    ensures |r.order| > 0 && r.order[|r.order| - 1] == k
    ensures forall j :: j in r.entries && j != k ==> j in s.entries && r.entries[j] == s.entries[j]
    ensures |s.order| <= |r.order| <= |s.order| + 1
    ensures 1 <= maxCache && |s.order| <= maxCache ==> |r.order| <= maxCache
  {
    var room := MakeRoom(s, k, maxCache);
    var r := Append(room, k, Entry(v, now));
    assert |s.order| <= |r.order| <= |s.order| + 1 by {
      if k in s.entries {
        assert k in s.order;
      }
    }
    r
  }

  /** `set` of a key already present (lines 91-93): it only moves to the back; no key is evicted and the size is unchanged. */
  lemma PutOverwrite<V>(s: Store<V>, k: HashKey, v: V, now: int, maxCache: int)
    requires Valid(s) && k in s.entries
    ensures var r := Put(s, k, v, now, maxCache);
      && r.entries.Keys == s.entries.Keys
      && |r.order| == |s.order|
      && (forall i :: 0 <= i < |s.order| && s.order[i] == k ==>
            r.order == s.order[..i] + s.order[i + 1..] + [k])
  {
    assert k in s.order;
  }

  /** `set` of a new key on a full, nonempty store (lines 94-98): exactly the front (least recently used) key is evicted. */
  lemma PutEvictsFront<V>(s: Store<V>, k: HashKey, v: V, now: int, maxCache: int)
    requires Valid(s) && k !in s.entries
    requires 0 < |s.order| && maxCache <= |s.order|
    ensures var r := Put(s, k, v, now, maxCache);
      && r.entries.Keys == s.entries.Keys - {s.order[0]} + {k}
      && r.order == s.order[1..] + [k]
      && |r.order| == |s.order|
  {
  }

  /** `set` of a new key with room to spare, or on an empty store: nothing is evicted. */
  lemma PutAppends<V>(s: Store<V>, k: HashKey, v: V, now: int, maxCache: int)
    requires Valid(s) && k !in s.entries
    requires !(0 < |s.order| && maxCache <= |s.order|)
    ensures var r := Put(s, k, v, now, maxCache);
      && r.entries.Keys == s.entries.Keys + {k}
      && r.order == s.order + [k]
  {
  }

  /** Appends a key not yet stored at the back (most recently used position). */
  function Append<V>(s: Store<V>, k: HashKey, e: Entry<V>): (r: Store<V>)
    requires Valid(s) && k !in s.entries
    ensures Valid(r)
    ensures r.order == s.order + [k] && r.entries == s.entries[k := e]
  {
    assert Distinct(s.order + [k]) by {
      var q := s.order + [k];
      forall i, j | 0 <= i < j < |q| ensures q[i] != q[j] {
        assert q[i] == s.order[i];
      }
    }
    Store(s.order + [k], s.entries[k := e])
  }

  /**
    `delete` on the store (line 110): only `k` goes; the other keys keep their
    entries and their relative order. Deleting an absent key changes nothing.
   */
  function Remove<V>(s: Store<V>, k: HashKey): (r: Store<V>)
    requires Valid(s)
    ensures Valid(r)
    ensures r.entries.Keys == s.entries.Keys - {k}
    ensures forall j :: j in r.entries ==> r.entries[j] == s.entries[j]
    ensures k !in s.entries ==> r == s
    ensures forall i :: 0 <= i < |s.order| && s.order[i] == k ==>
              r.order == s.order[..i] + s.order[i + 1..]
  {
    forall i | 0 <= i < |s.order| && s.order[i] == k
      ensures RemoveKey(s.order, k) == s.order[..i] + s.order[i + 1..]
    {
      RemoveKeyAt(s.order, i);
    }
    if k in s.entries then Store(RemoveKey(s.order, k), s.entries - {k}) else s
  }
}
