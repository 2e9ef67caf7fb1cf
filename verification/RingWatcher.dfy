/** The watcher's own code, one undisturbed call at a time, against the selection functions. */
module RingWatcher {
  import opened Etcd
  import opened RingSelection
  import opened RingProtocol
  import Circle

  method RepeatKVs(kvs: seq<string>, items: nat) returns (result: seq<string>)
    requires kvs != []
    ensures result == Circle.Repeated(kvs, items)
  {
    hide Circle.Repeated, Circle.Wrap;
    result := [];
    var rounds, rest := items / |kvs|, items % |kvs|;
    for i := 0 to rounds
      invariant result == Circle.Repeated(kvs, Circle.Times(i, |kvs|))
    {
      RepeatedRound(kvs, i);
      result := result + kvs;
    }
    for i := 0 to rest
      invariant result == Circle.Repeated(kvs, Circle.Times(rounds, |kvs|) + i)
    {
      RepeatedOne(kvs, rounds, i);
      result := result + [kvs[i]];
    }
    Circle.TimesIsProduct(rounds, |kvs|);
  }

  lemma RepeatedOne(kvs: seq<string>, k: nat, i: nat)
    requires i < |kvs|
    ensures var m := Circle.Times(k, |kvs|) + i; Circle.Repeated(kvs, m) + [kvs[i]] == Circle.Repeated(kvs, m + 1)
  {
    WholeRounds(k, i, |kvs|);
  }

  lemma {:induction false} WholeRounds(k: nat, i: nat, n: nat)
    requires i < n
    ensures Circle.Wrap(Circle.Times(k, n) + i, n) == i
  {
    if k > 0 { WholeRounds(k - 1, i, n); }
  }

  lemma RepeatedRound(kvs: seq<string>, k: nat)
    requires kvs != []
    ensures Circle.Repeated(kvs, Circle.Times(k, |kvs|)) + kvs == Circle.Repeated(kvs, Circle.Times(k + 1, |kvs|))
  {
    var n := |kvs|;
    var l, r := Circle.Repeated(kvs, Circle.Times(k, n)) + kvs, Circle.Repeated(kvs, Circle.Times(k + 1, n));
    hide Circle.Repeated, Circle.Wrap;
    forall j | 0 <= j < |l| ensures l[j] == r[j] {
      if j >= Circle.Times(k, n) { WholeRounds(k, j - Circle.Times(k, n), n); }
    }
  }

  /** Item after item round the ring from a place, as many as asked for, but never more than the
      rest of the ring and one whole round. */
  ghost predicate RoundFrom(items: seq<string>, s: nat, n: nat, result: seq<string>)
    requires s < |items|
  {
    && |result| == (if n < 2 * |items| - s then n else 2 * |items| - s)
    && forall j :: 0 <= j < |result| ==> result[j] == items[(s + j) % |items|]
  }

  method NextInRing(cluster: Cluster<Key, string>, prev: Option<string>, n: nat) returns (result: seq<string>)
    requires n > 0
    ensures result == RingSelection.NextInRing(Items(cluster.st), prev, n)
    ensures forall s: nat :: Begins(Items(cluster.st), prev, s) ==> RoundFrom(Items(cluster.st), s, n, result)
    decreases prev.Some?
  {
    ghost var ring := Items(cluster.st);
    forall s: nat | Begins(ring, prev, s) ensures RoundFrom(ring, s, n, RingSelection.NextInRing(ring, prev, n)) {
      FoundExactly(ring, prev, n, s);
    }
    var items := Items(cluster.st);
    if prev.None? { result := Take(items, n); } else { result := ReadFrom(items, prev.value, n); }
    if result == [] && prev.None? {
      return;
    } else if result == [] {
      result := NextInRing(cluster, None, n);
      return;
    }
    if |result| < n {
      var m := n - |result|;
      result := result + Take(items, m);
    }
  }

  lemma UnusedLease(st: RingStore, lease: nat)
    requires forall k :: k in st.kvs ==> st.kvs[k].lease != lease
    ensures EndLease(st, lease).kvs == st.kvs && EndLease(st, lease).history == st.history
  {
  }

  /** The trigger goes to whoever finds none, on a lease of its own; a lease that did not get to
      carry the trigger is given back. */
  method WriteTrigger(cluster: Cluster<Key, string>, next: string)
    requires Consistent(cluster.st)
    modifies cluster
    ensures Consistent(cluster.st) && Trigger in cluster.st.kvs
    ensures Trigger in old(cluster.st).kvs ==>
      cluster.st.kvs == old(cluster.st).kvs && cluster.st.history == old(cluster.st).history
    ensures Trigger !in old(cluster.st).kvs ==>
      && cluster.st.kvs == old(cluster.st).kvs[Trigger := Entry(next, 1, old(cluster.st).nextLease)]
      && old(cluster.st).nextLease in cluster.st.live
  {
    GrantKeepsConsistent(cluster.st);
    var lease := cluster.GrantLease();
    CreateKeepsConsistent(cluster.st, Trigger, next, lease);
    var outcome := cluster.PutIfAbsent(Trigger, next, lease);
    if !outcome.Committed? {
      EndLeaseKeepsConsistent(cluster.st, lease);
      UnusedLease(cluster.st, lease);
      cluster.RevokeLease(lease);
    }
  }

  /** One advance with nobody else around. Whoever finds the trigger free leaves it on the
      following item, on a lease of its own; whoever finds it taken leaves every key as it was.
      Both hand out the same values. */
  method AdvanceRing(cluster: Cluster<Key, string>, prev: Option<string>, values: nat) returns (repeated: seq<string>)
    requires Consistent(cluster.st)
    modifies cluster
    ensures Consistent(cluster.st)
    ensures var found := RingSelection.NextInRing(Items(old(cluster.st)), prev, values + 1);
      if found == [] then repeated == [] && cluster.st == old(cluster.st)
      else
        && repeated == Delivered(found, values)
        && Trigger in cluster.st.kvs
        && (Trigger in old(cluster.st).kvs ==>
              cluster.st.kvs == old(cluster.st).kvs && cluster.st.history == old(cluster.st).history)
        && (Trigger !in old(cluster.st).kvs ==>
              && cluster.st.kvs == old(cluster.st).kvs[Trigger := Entry(Following(found, values), 1, old(cluster.st).nextLease)]
              && old(cluster.st).nextLease in cluster.st.live)
    ensures forall s: nat :: Begins(Items(old(cluster.st)), prev, s) && values <= |Items(old(cluster.st))| ==>
      exists next :: Stretch(Items(old(cluster.st)), s, values, repeated, next) &&
        (Trigger !in old(cluster.st).kvs ==> Trigger in cluster.st.kvs && cluster.st.kvs[Trigger].value == next)
  {
    hide RingSelection.NextInRing, Begins, Stretch, Circle.Repeated, RoundFrom;
    ghost var ring := Items(cluster.st);
    forall s: nat | Begins(ring, prev, s) && values <= |ring|
      ensures var found := RingSelection.NextInRing(ring, prev, values + 1);
        found != [] && Stretch(ring, s, values, Delivered(found, values), Following(found, values))
    {
      AdvanceFrom(ring, prev, values, s);
    }
    var items := NextInRing(cluster, prev, values + 1);
    if |items| == 0 {
      return [];
    }
    var nextItem := items[|items| - 1];
    repeated := RepeatKVs(items, values);
    if |items| < values + 1 {
      nextItem := items[0];
    }
    WriteTrigger(cluster, nextItem);
  }

  /** hasTrigger and the conditional write: afterwards a ring with items has a trigger, the
      first item if it had none, and an existing trigger is left alone. */
  method EnsureActiveTrigger(cluster: Cluster<Key, string>)
    requires Consistent(cluster.st)
    modifies cluster
    ensures Consistent(cluster.st)
    ensures Trigger in old(cluster.st).kvs || Items(old(cluster.st)) == [] ==>
      cluster.st.kvs == old(cluster.st).kvs && cluster.st.history == old(cluster.st).history
    ensures Trigger !in old(cluster.st).kvs && Items(old(cluster.st)) != [] ==>
      cluster.st.kvs == old(cluster.st).kvs[Trigger := Entry(Items(old(cluster.st))[0], 1, old(cluster.st).nextLease)]
  {
    var items := Items(cluster.st);
    var has := Trigger in cluster.st.kvs && cluster.st.kvs[Trigger].value != "";
    if has || items == [] {
      return;
    }
    WriteTrigger(cluster, items[0]);
  }

  // ---- The cron interval ----

  const SECOND: int := 1_000_000_000
  const MIN_INTERVAL: int := 5

  /** `next` gives the fire time after a moment, in nanoseconds: a later one, and no earlier for
      a later moment. Fire times need not be fixed: `@every 10s` counts from the moment asked. */
  ghost predicate FiresInOrder(next: int -> int) {
    && (forall t :: t < next(t))
    && (forall t, u :: t <= u ==> next(t) <= next(u))
  }

  /** Consecutive fire times are at least the minimum interval apart. */
  ghost predicate WellSpaced(next: int -> int) {
    forall t :: next(next(t)) - next(t) >= MIN_INTERVAL * SECOND
  }

  /** The whole seconds to the next fire time, and one more for the truncated rest. */
  function IntervalAt(next: int -> int, now: int): int {
    (next(now) - now) / SECOND + 1
  }

  lemma IntervalCovers(next: int -> int, now: int)
    ensures var interval := IntervalAt(next, now);
      (interval - 1) * SECOND <= next(now) - now < interval * SECOND
  {
  }

  /** The search ends, and it ends at the first whole second from the start whose interval is
      long enough. */
  method GetInterval(next: int -> int, start: int) returns (interval: int, waited: nat)
    requires FiresInOrder(next) && WellSpaced(next)
    ensures interval >= MIN_INTERVAL
    ensures interval == IntervalAt(next, start + waited * SECOND)
    ensures forall k: nat :: k < waited ==> IntervalAt(next, start + k * SECOND) < MIN_INTERVAL
    ensures waited <= MIN_INTERVAL
    ensures var now := start + waited * SECOND; (interval - 1) * SECOND <= next(now) - now < interval * SECOND
  {
    var now := start;
    interval, waited := IntervalAt(next, now), 0;
    ghost var fire := next(start);
    while interval < MIN_INTERVAL
      invariant now == start + waited * SECOND
      invariant interval == IntervalAt(next, now)
      invariant forall k: nat :: k < waited ==> IntervalAt(next, start + k * SECOND) < MIN_INTERVAL
      invariant waited > 0 ==> fire - start < (MIN_INTERVAL - 1) * SECOND
      invariant start <= now < fire + SECOND
      invariant now >= fire ==> interval >= MIN_INTERVAL
      decreases fire + SECOND - now
    {
      assert next(now) >= fire;
      now := now + SECOND;
      interval := IntervalAt(next, now);
      waited := waited + 1;
      if now >= fire {
        assert next(now) >= next(fire) >= fire + MIN_INTERVAL * SECOND;
      }
    }
    IntervalCovers(next, now);
  }

  /** A constant delay of `d` seconds, `@every` in a schedule: counted from the last full second. */
  function Every(d: nat): int -> int { t => (t / SECOND + d) * SECOND }

  lemma EveryIsWellSpaced(d: nat)
    requires d >= MIN_INTERVAL
    ensures FiresInOrder(Every(d)) && WellSpaced(Every(d))
  {
    forall t, u | t <= u ensures t < Every(d)(t) <= Every(d)(u) {
      assert t / SECOND <= u / SECOND;
    }
    forall t ensures Every(d)(Every(d)(t)) - Every(d)(t) >= MIN_INTERVAL * SECOND {
      assert Every(d)(t) / SECOND == t / SECOND + d;
    }
  }

  /** Every round of the search sees the same interval. */
  lemma EveryInterval(d: nat, start: int, k: nat)
    ensures IntervalAt(Every(d), start + k * SECOND) == if start % SECOND == 0 then d + 1 else d
  {
    var now := start + k * SECOND;
    assert now / SECOND == start / SECOND + k && now % SECOND == start % SECOND;
    assert now == now / SECOND * SECOND + now % SECOND;
    assert Every(d)(now) - now == d * SECOND - start % SECOND;
  }

  /** For a constant delay the search ends if and only if the delay is at least the minimum, or
      one second short of it with the search starting on a full second. */
  lemma EverySearchExactly(d: nat, start: int)
    ensures (exists k: nat :: IntervalAt(Every(d), start + k * SECOND) >= MIN_INTERVAL)
      <==> d >= MIN_INTERVAL || (d == MIN_INTERVAL - 1 && start % SECOND == 0)
  {
    forall k: nat ensures IntervalAt(Every(d), start + k * SECOND) == if start % SECOND == 0 then d + 1 else d {
      EveryInterval(d, start, k);
    }
    assert IntervalAt(Every(d), start + 0 * SECOND) == if start % SECOND == 0 then d + 1 else d;
  }

  /** So `@every 1s`, which the parser accepts, keeps it going for ever. */
  lemma EverySecondNeverEnds(start: int, k: nat)
    ensures IntervalAt(Every(1), start + k * SECOND) < MIN_INTERVAL
  {
    EveryInterval(1, start, k);
  }
}
