/** The calls of a liveness client, each undisturbed, against the functions of Liveness. */
module SwitchSets {
  import opened Etcd
  import opened Liveness
  import opened Revival

  /** A lease is recorded for the switch, and it lives. */
  predicate HasLease(st: SwitchStore) {
    LeaseRecord in st.kvs && st.kvs[LeaseRecord].value.LeaseRef? && st.kvs[LeaseRecord].value.id in st.live
  }

  /** The switch is on the lease recorded for it. */
  predicate OnRecordedLease(st: SwitchStore) {
    && Switch in st.kvs && st.kvs[Switch].lease != NO_LEASE && st.kvs[Switch].lease in st.live
    && LeaseRecord in st.kvs && st.kvs[LeaseRecord].value == LeaseRef(st.kvs[Switch].lease)
  }

  /** So the end of that lease deletes it, and this is its next event. */
  lemma LeaseEndDeletes(st: SwitchStore)
    requires Consistent(st) && OnRecordedLease(st)
    ensures var st' := EndLease(st, st.kvs[LeaseRecord].value.id);
      Switch !in st'.kvs && SwitchLog(st') == SwitchLog(st) + [Delete(st.kvs[Switch])]
  {
    EndLeaseLog(st, st.kvs[Switch].lease, Switch);
  }

  class SwitchSet {
    const cluster: Cluster<Key, Value>
    // callbacks waiting to be run, in order
    var events: seq<Callback>

    constructor (cluster: Cluster<Key, Value>)
      ensures this.cluster == cluster && events == []
    {
      this.cluster := cluster;
      events := [];
    }

    /** The recorded lease while it lives, otherwise a new one that still has to be recorded. */
    method GetLeaseID() returns (leaseID: nat, isNew: bool)
      requires Consistent(cluster.st)
      modifies cluster
      ensures Consistent(cluster.st) && leaseID in cluster.st.live && leaseID != NO_LEASE
      ensures cluster.st.kvs == old(cluster.st.kvs) && cluster.st.history == old(cluster.st.history)
      ensures !isNew ==>
        && cluster.st == old(cluster.st) && LeaseRecord in cluster.st.kvs
        && cluster.st.kvs[LeaseRecord].value == LeaseRef(leaseID)
      ensures isNew ==> leaseID == old(cluster.st.nextLease)
      ensures isNew <==> !HasLease(old(cluster.st))
    {
      leaseID, isNew := 0, true;
      if LeaseRecord in cluster.st.kvs && cluster.st.kvs[LeaseRecord].value.LeaseRef? {
        leaseID := cluster.st.kvs[LeaseRecord].value.id;
        isNew := leaseID !in cluster.st.live;
      }
      if isNew {
        GrantKeepsConsistent(cluster.st);
        leaseID := cluster.GrantLease();
      }
    }

    /** An assertion is refused below the minimum; otherwise it becomes the next event of the
        switch, signed by its kind, on the lease recorded for the switch. */
    method Ping(ttl: int, alive: bool) returns (ok: bool)
      requires Consistent(cluster.st)
      modifies cluster
      ensures Consistent(cluster.st)
      ensures ok <==> ttl >= FALLBACK_TTL
      ensures !ok ==> cluster.st == old(cluster.st)
      ensures ok ==>
        && Switch in cluster.st.kvs && LeaseRecord in cluster.st.kvs
        && cluster.st.kvs[Switch].value == Ttl(if alive then ttl else -ttl)
        && OnRecordedLease(cluster.st)
        && SwitchLog(cluster.st) == old(SwitchLog(cluster.st)) + [Put(cluster.st.kvs[Switch], old(Lookup(cluster.st, Switch)))]
    {
      if ttl < FALLBACK_TTL {
        return false;
      }
      var putVal := ttl;
      if !alive {
        putVal := -putVal;
      }
      var leaseID, isNew := GetLeaseID();
      if isNew {
        PutKeepsConsistent(cluster.st, LeaseRecord, LeaseRef(leaseID), NO_LEASE);
        cluster.PutValue(LeaseRecord, LeaseRef(leaseID), NO_LEASE);
      }
      PutKeepsConsistent(cluster.st, Switch, Ttl(putVal), leaseID);
      cluster.PutValue(Switch, Ttl(putVal), leaseID);
      ok := true;
    }

    /** Both events of a burial carry the mark, and the switch is gone. */
    method Bury()
      requires Consistent(cluster.st)
      modifies cluster
      ensures Consistent(cluster.st) && Switch !in cluster.st.kvs
      ensures exists marked: Entry<Value> ::
        && marked.value == Buried && marked.lease == NO_LEASE
        && SwitchLog(cluster.st) == old(SwitchLog(cluster.st)) + [Put(marked, old(Lookup(cluster.st, Switch))), Delete(marked)]
      ensures forall k :: k != Switch ==> Lookup(cluster.st, k) == old(Lookup(cluster.st, k))
    {
      PutKeepsConsistent(cluster.st, Switch, Buried, NO_LEASE);
      cluster.PutValue(Switch, Buried, NO_LEASE);
      ghost var marked := cluster.st.kvs[Switch];
      DeleteKeepsConsistent(cluster.st, Switch);
      cluster.Remove(Switch);
      assert SwitchLog(cluster.st) == old(SwitchLog(cluster.st)) + [Put(marked, old(Lookup(cluster.st, Switch))), Delete(marked)];
    }

    /** Buried events pass in silence. A sign of life is called out and writes nothing. An expiry
        is called out too, as leader exactly when the switch was still gone, in which case it is
        back with a negative value; otherwise the switch is left as it is. */
    method HandleEvent(position: nat, n: Notice)
      requires Consistent(cluster.st)
      modifies cluster, this
      ensures Consistent(cluster.st)
      ensures IsBuried(n) || n.PutNotice? ==> cluster.st == old(cluster.st)
      ensures IsBuried(n) ==> events == old(events)
      ensures !IsBuried(n) && n.PutNotice? ==>
        var (ttl, prev) := TtlFromEvent(n);
        events == old(events) + (if ttl > 0 && ttl != MAX_INT64 then [OnAlive(position, prev)] else [])
      ensures !IsBuried(n) && n.DeleteNotice? ==>
        var leader := Switch !in old(cluster.st.kvs);
        && events == old(events) + [OnDead(position, TtlFromEvent(n).1, leader, |old(SwitchLog(cluster.st))|)]
        && Switch in cluster.st.kvs
        && (leader ==> OnRecordedLease(cluster.st) && cluster.st.kvs[Switch].value == Ttl(-Size(TtlFromEvent(n).0)))
        && (!leader ==> cluster.st.kvs == old(cluster.st.kvs) && cluster.st.history == old(cluster.st.history))
    {
      if IsBuried(n) {
        return;
      }
      var (ttl, prevState) := TtlFromEvent(n);
      match n {
        case DeleteNotice(_) =>
          if ttl >= 0 {
            ttl := -ttl;
          }
          var at := |SwitchLog(cluster.st)|;
          var leaseID, isNew := GetLeaseID();
          CreateKeepsConsistent(cluster.st, Switch, Ttl(ttl), leaseID);
          var outcome := cluster.PutIfAbsent(Switch, Ttl(ttl), leaseID);
          if outcome.Committed? && isNew {
            PutKeepsConsistent(cluster.st, LeaseRecord, LeaseRef(leaseID), NO_LEASE);
            cluster.PutValue(LeaseRecord, LeaseRef(leaseID), NO_LEASE);
          }
          events := events + [OnDead(position, prevState, outcome.Committed?, at)];
        case PutNotice(_, _) =>
          if ttl > 0 && ttl != MAX_INT64 {
            events := events + [OnAlive(position, prevState)];
          }
      }
    }
  }
}
