/** The part of etcd the backends coordinate through: keys with a version and a lease,
    conditional writes, leases whose end deletes every key attached to them, and for every
    key the gap-free list of watch events with the previous entry. */
module Etcd {

  datatype Option<+T> = None | Some(value: T)

  const NO_LEASE: nat := 0

  /** `version` counts the writes since the key last came into being; an absent key has version 0. */
  datatype Entry<+V> = Entry(value: V, version: nat, lease: nat)

  datatype Event<+V> =
    | Put(entry: Entry<V>, prev: Option<Entry<V>>)
    | Delete(last: Entry<V>)

  datatype Store<!K, V> = Store(
    kvs: map<K, Entry<V>>,
    history: map<K, seq<Event<V>>>,
    live: set<nat>,
    nextLease: nat)

  function Log<K, V>(st: Store<K, V>, k: K): seq<Event<V>> {
    if k in st.history then st.history[k] else []
  }

  function Lookup<K, V>(st: Store<K, V>, k: K): Option<Entry<V>> {
    if k in st.kvs then Some(st.kvs[k]) else None
  }

  function Version<K, V>(st: Store<K, V>, k: K): nat {
    if k in st.kvs then st.kvs[k].version else 0
  }

  // ---- Operations ----

  function PutKey<K, V>(st: Store<K, V>, k: K, v: V, lease: nat): Store<K, V> {
    var e := Entry(v, Version(st, k) + 1, lease);
    st.(kvs := st.kvs[k := e], history := st.history[k := Log(st, k) + [Put(e, Lookup(st, k))]])
  }

  function DeleteKey<K, V>(st: Store<K, V>, k: K): Store<K, V> {
    if k in st.kvs then
      st.(kvs := st.kvs - {k}, history := st.history[k := Log(st, k) + [Delete(st.kvs[k])]])
    else st
  }

  function Grant<K, V>(st: Store<K, V>): Store<K, V> {
    st.(live := st.live + {st.nextLease}, nextLease := st.nextLease + 1)
  }

  /** Revocation and expiry of a lease: it ends, and every key attached to it goes with it. */
  function EndLease<K, V>(st: Store<K, V>, lease: nat): Store<K, V> {
    if lease == NO_LEASE || lease !in st.live then st
    else st.(
      kvs := map k | k in st.kvs && st.kvs[k].lease != lease :: st.kvs[k],
      history := map k | k in st.history ::
        if k in st.kvs && st.kvs[k].lease == lease then st.history[k] + [Delete(st.kvs[k])] else st.history[k],
      live := st.live - {lease})
  }

  /** How a conditional write can end: done, refused by its comparison, or an error because
      the lease it wants to attach is gone. */
  datatype Outcome = Committed | Refused | LeaseGone

  /** `If version(k) = 0 Then put(k, v, lease)`. */
  function CreateOutcome<K, V>(st: Store<K, V>, k: K, lease: nat): Outcome {
    if k in st.kvs then Refused
    else if lease != NO_LEASE && lease !in st.live then LeaseGone
    else Committed
  }

  function Create<K, V>(st: Store<K, V>, k: K, v: V, lease: nat): Store<K, V> {
    if CreateOutcome(st, k, lease).Committed? then PutKey(st, k, v, lease) else st
  }

  // ---- What every store keeps ----

  /** What a key holds after an event, and before the event at position `i` of its log. */
  function After<V>(e: Event<V>): Option<Entry<V>> {
    match e
    case Put(entry, _) => Some(entry)
    case Delete(_) => None
  }

  function Before<V>(h: seq<Event<V>>, i: nat): Option<Entry<V>>
    requires i <= |h|
  {
    if i == 0 then None else After(h[i - 1])
  }

  /** What an event reports the key to have held before it. */
  function Reported<V>(e: Event<V>): Option<Entry<V>> {
    match e
    case Put(_, prev) => prev
    case Delete(last) => Some(last)
  }

  /** Every event reports exactly what its predecessor left behind. */
  ghost predicate Chained<V>(h: seq<Event<V>>) {
    forall i :: 0 <= i < |h| ==> Reported(h[i]) == Before(h, i)
  }

  lemma ChainedAppend<V>(h: seq<Event<V>>, e: Event<V>)
    requires Chained(h) && Reported(e) == Before(h, |h|)
    ensures Chained(h + [e]) && Before(h + [e], |h| + 1) == After(e)
  {
    var h' := h + [e];
    forall i | 0 <= i < |h'| ensures Reported(h'[i]) == Before(h', i) {
      if i < |h| { assert Reported(h[i]) == Before(h, i); }
    }
  }

  ghost predicate KeyConsistent<K, V>(st: Store<K, V>, k: K) {
    Chained(Log(st, k)) && Before(Log(st, k), |Log(st, k)|) == Lookup(st, k)
  }

  ghost predicate Consistent<K(!new), V>(st: Store<K, V>) {
    && (forall k :: KeyConsistent(st, k))
    && (forall k :: k in st.kvs ==> 0 < st.kvs[k].version && (st.kvs[k].lease == NO_LEASE || st.kvs[k].lease in st.live))
    && (forall l :: l in st.live ==> 0 < l < st.nextLease)
    && 0 < st.nextLease
  }

  lemma PutKeepsConsistent<K(!new), V>(st: Store<K, V>, k: K, v: V, lease: nat)
    requires Consistent(st) && (lease == NO_LEASE || lease in st.live)
    ensures Consistent(PutKey(st, k, v, lease))
  {
    var st' := PutKey(st, k, v, lease);
    forall k' ensures KeyConsistent(st', k') {
      assert KeyConsistent(st, k');
      if k' == k { ChainedAppend(Log(st, k), Put(st'.kvs[k], Lookup(st, k))); }
    }
  }

  lemma DeleteKeepsConsistent<K(!new), V>(st: Store<K, V>, k: K)
    requires Consistent(st)
    ensures Consistent(DeleteKey(st, k))
  {
    var st' := DeleteKey(st, k);
    forall k' ensures KeyConsistent(st', k') {
      assert KeyConsistent(st, k');
      if k' == k && k in st.kvs { ChainedAppend(Log(st, k), Delete(st.kvs[k])); }
    }
  }

  lemma GrantKeepsConsistent<K(!new), V>(st: Store<K, V>)
    requires Consistent(st)
    ensures Consistent(Grant(st))
  {
    forall k ensures KeyConsistent(Grant(st), k) { assert KeyConsistent(st, k); }
  }

  /** What the end of a lease does to the log of each key. */
  lemma EndLeaseLog<K(!new), V>(st: Store<K, V>, lease: nat, k: K)
    requires Consistent(st)
    ensures var st' := EndLease(st, lease);
      if lease != NO_LEASE && lease in st.live && k in st.kvs && st.kvs[k].lease == lease
      then Log(st', k) == Log(st, k) + [Delete(st.kvs[k])] && k !in st'.kvs
      else Log(st', k) == Log(st, k) && Lookup(st', k) == Lookup(st, k)
  {
    assert KeyConsistent(st, k);
  }

  lemma EndLeaseKeepsConsistent<K(!new), V>(st: Store<K, V>, lease: nat)
    requires Consistent(st)
    ensures Consistent(EndLease(st, lease))
  {
    var st' := EndLease(st, lease);
    forall k ensures KeyConsistent(st', k) {
      assert KeyConsistent(st, k);
      EndLeaseLog(st, lease, k);
      if Log(st', k) != Log(st, k) { ChainedAppend(Log(st, k), Delete(st.kvs[k])); }
    }
  }

  lemma CreateKeepsConsistent<K(!new), V>(st: Store<K, V>, k: K, v: V, lease: nat)
    requires Consistent(st)
    ensures Consistent(Create(st, k, v, lease))
  {
    if CreateOutcome(st, k, lease).Committed? { PutKeepsConsistent(st, k, v, lease); }
  }

  /** A write that found the key absent cannot follow an earlier write of the same key
      without a deletion in between. */
  lemma CreationsSeparated<V>(h: seq<Event<V>>, i: nat, j: nat)
    requires Chained(h) && i < j < |h|
    requires h[i].Put? && h[j].Put? && h[j].prev.None?
    ensures i < j - 1 && h[j - 1].Delete?
  {
    assert Before(h, j) == None;
  }

  // ---- The server as the clients see it ----

  class Cluster<!K(==), V> {
    var st: Store<K, V>

    constructor (st: Store<K, V>)
      ensures this.st == st
    {
      this.st := st;
    }

    method GrantLease() returns (lease: nat)
      modifies this
      ensures lease == old(st).nextLease && st == Grant(old(st))
    {
      lease := st.nextLease;
      st := Grant(st);
    }

    method RevokeLease(lease: nat)
      modifies this
      ensures st == EndLease(old(st), lease)
    {
      st := EndLease(st, lease);
    }

    method PutValue(k: K, v: V, lease: nat)
      requires lease == NO_LEASE || lease in st.live
      modifies this
      ensures st == PutKey(old(st), k, v, lease)
    {
      st := PutKey(st, k, v, lease);
    }

    method Remove(k: K)
      modifies this
      ensures st == DeleteKey(old(st), k)
    {
      st := DeleteKey(st, k);
    }

    method PutIfAbsent(k: K, v: V, lease: nat) returns (outcome: Outcome)
      modifies this
      ensures outcome == CreateOutcome(old(st), k, lease)
      ensures st == Create(old(st), k, v, lease)
    {
      outcome := CreateOutcome(st, k, lease);
      st := Create(st, k, v, lease);
    }
  }
}
