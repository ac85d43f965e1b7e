/**
  The deduplication broker (the `subscribes` field of `LruCache`).

  A hash key present in the map means a fetch for it is presumed in flight; its
  sequence lists the callers queued behind that fetch in arrival order. In the
  source each waiter is the `[resolve, reject]` pair of a promise; here it is an
  identifier, and settling a key yields the ordered list of settlement events
  instead of invoking callbacks.
 */
module Broker {
  import opened LruStore

  type WaiterId = nat

  type Subscribers = map<HashKey, seq<WaiterId>>

  /** How one waiter's promise is settled. */
  datatype Outcome<V> = Resolve(value: V) | Reject

  datatype Event<V> = Event(waiter: WaiterId, outcome: Outcome<V>)

  /** `w` is queued for some key. */
  ghost predicate Registered(b: Subscribers, w: WaiterId)
  {
    exists h, i :: h in b && 0 <= i < |b[h]| && b[h][i] == w
  }

  /** Every queued waiter appears once, in one queue only. */
  ghost predicate Unique(b: Subscribers)
  {
    forall h1, h2, i, j ::
      h1 in b && h2 in b && 0 <= i < |b[h1]| && 0 <= j < |b[h2]| && b[h1][i] == b[h2][j]
      ==> h1 == h2 && i == j
  }

  /** Every queued waiter was issued before `next`. */
  ghost predicate IssuedBelow(b: Subscribers, next: WaiterId)
  {
    forall h, i :: h in b && 0 <= i < |b[h]| ==> b[h][i] < next
  }

  /** Every key other than `h` has the same queue, or none, in both. */
  ghost predicate SameElsewhere(b: Subscribers, b': Subscribers, h: HashKey)
  {
    forall g :: g != h ==> (g in b' <==> g in b) && (g in b ==> b'[g] == b[g])
  }

  /** The waiters an event list settles, in order. */
  function Waiters<V>(events: seq<Event<V>>): (ws: seq<WaiterId>)
    ensures |ws| == |events|
    ensures forall i :: 0 <= i < |events| ==> ws[i] == events[i].waiter
  {
    seq(|events|, i requires 0 <= i < |events| => events[i].waiter)
  }

  /**
    `addNotice` (lines 158-161): the first caller to miss a key becomes its producer
    and the key gets an empty queue; no other key's queue changes.
   */
  function BeginTracking(b: Subscribers, h: HashKey): (r: Subscribers)
    ensures h in r && r[h] == []
    ensures SameElsewhere(b, r, h)
  {
    b[h := []]
  }

  /**
    `addSubscribe` (lines 186-192): a later caller is queued at the end of the key's
    queue; earlier waiters keep their places. A waiter never issued before keeps the
    queues free of repetitions.
   */
  function Subscribe(b: Subscribers, h: HashKey, w: WaiterId): (r: Subscribers)
    requires h in b
    ensures h in r && |r[h]| == |b[h]| + 1 && r[h][..|b[h]|] == b[h] && r[h][|b[h]|] == w
    ensures SameElsewhere(b, r, h)
    ensures Unique(b) && IssuedBelow(b, w) ==> Unique(r) && IssuedBelow(r, w + 1)
  {
    var r := b[h := b[h] + [w]];
    assert IssuedBelow(b, w) ==> IssuedBelow(r, w + 1) by {
      if IssuedBelow(b, w) {
        forall g, i | g in r && 0 <= i < |r[g]| ensures r[g][i] < w + 1 {
          if g == h && i < |b[h]| {
            assert r[g][i] == b[h][i];
          }
        }
      }
    }
    assert Unique(b) && IssuedBelow(b, w) ==> Unique(r) by {
      if Unique(b) && IssuedBelow(b, w) {
        forall h1, h2, i, j |
          h1 in r && h2 in r && 0 <= i < |r[h1]| && 0 <= j < |r[h2]| && r[h1][i] == r[h2][j]
          ensures h1 == h2 && i == j
        {
          if !(h1 == h && i == |b[h]|) && !(h2 == h && j == |b[h]|) {
            assert r[h1][i] == b[h1][i] && r[h2][j] == b[h2][j];
          }
        }
      }
    }
    r
  }

  /** One event per waiter, in queue order, all with the same outcome. */
  function Broadcast<V>(ws: seq<WaiterId>, outcome: Outcome<V>): (events: seq<Event<V>>)
    ensures Waiters(events) == ws
    ensures forall i :: 0 <= i < |events| ==> events[i].outcome == outcome
  {
    seq(|ws|, i requires 0 <= i < |ws| => Event(ws[i], outcome))
  }

  /**
    The settlement loop of `notice` (lines 168-175): the queue is walked front to
    back and each waiter is settled as it is reached, giving the same events as
    `Broadcast`.
   */
  method SettleQueue<V>(ws: seq<WaiterId>, outcome: Outcome<V>) returns (events: seq<Event<V>>)
    ensures Waiters(events) == ws
    ensures forall i :: 0 <= i < |events| ==> events[i].outcome == outcome
    ensures events == Broadcast(ws, outcome)
  {
    events := [];
    var i := 0;
    while i < |ws|
      invariant 0 <= i <= |ws|
      invariant |events| == i
      invariant forall j :: 0 <= j < i ==> events[j] == Event(ws[j], outcome)
    {
      events := events + [Event(ws[i], outcome)];
      i := i + 1;
    }
  }

  /**
    `notice` (lines 163-179): when the key has a queue, every waiter in it is settled
    with `outcome`, once each and in registration order, and the queue is removed;
    when it has none, nothing happens. Other keys' queues are untouched.
   */
  function Notify<V>(b: Subscribers, h: HashKey, outcome: Outcome<V>): (r: (Subscribers, seq<Event<V>>))
    ensures h !in r.0
    ensures SameElsewhere(b, r.0, h)
    ensures h in b ==> Waiters(r.1) == b[h]
    ensures forall i :: 0 <= i < |r.1| ==> r.1[i].outcome == outcome
    ensures h !in b ==> r.0 == b && r.1 == []
  {
    if h in b then (b - {h}, Broadcast(b[h], outcome)) else (b, [])
  }

  /**
    Settling keeps the broker's invariants, settles no waiter twice, and leaves no
    settled waiter queued anywhere, so none of them can be settled again later.
   */
  lemma NotifySettlesOnce<V>(b: Subscribers, h: HashKey, outcome: Outcome<V>, next: WaiterId)
    requires Unique(b) && IssuedBelow(b, next)
    ensures var (b', events) := Notify(b, h, outcome);
      && Unique(b') && IssuedBelow(b', next)
      && (forall i, j :: 0 <= i < j < |events| ==> events[i].waiter != events[j].waiter)
      && (forall i :: 0 <= i < |events| ==> !Registered(b', events[i].waiter))
  {
    var (b', events) := Notify(b, h, outcome);
    if h in b {
      forall i | 0 <= i < |events| ensures !Registered(b', events[i].waiter) {
        assert events[i].waiter == b[h][i];
      }
      forall i, j | 0 <= i < j < |events| ensures events[i].waiter != events[j].waiter {
        assert events[i].waiter == b[h][i] && events[j].waiter == b[h][j];
      }
    }
  }
}
