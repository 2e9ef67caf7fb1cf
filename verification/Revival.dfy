/** How a switch that has expired comes back: as dead, with the time-to-live it had, and on a
    lease whose end is the next expiry. So a switch goes on reporting until it is buried. */
module Revival {
  import opened Etcd
  import opened Liveness

  function Size(n: int): int { if n < 0 then -n else n }

  /** The value stands for the death of the switch that event `e` deleted: its time-to-live,
      negative. Where previous values can be missing it may also be the fallback. */
  ghost predicate InKind(known: bool, log: seq<Event<Value>>, e: nat, v: Value) {
    && e < |log| && log[e].Delete?
    && v.Ttl? && (v.n == -Size(Scan(log[e].last.value)) || (!known && v.n == -FALLBACK_TTL))
  }

  ghost predicate WroteInKind(known: bool, log: seq<Event<Value>>, cb: Callback)
    requires cb.OnDead?
  {
    cb.leader ==>
      && cb.at < |log| && log[cb.at].Put? && log[cb.at].entry.lease != NO_LEASE
      && InKind(known, log, cb.event, log[cb.at].entry.value)
  }

  ghost predicate Kept(known: bool, log: seq<Event<Value>>, c: Client) {
    && (c.phase.Reviving? ==> InKind(known, log, c.seen, Ttl(c.phase.ttl)))
    && forall a :: 0 <= a < |c.callbacks| && c.callbacks[a].OnDead? ==> WroteInKind(known, log, c.callbacks[a])
  }

  ghost predicate AllKept(known: bool, s: State) {
    forall c :: c in s.clients ==> Kept(known, SwitchLog(s.store), s.clients[c])
  }

  lemma KeptLonger(known: bool, log: seq<Event<Value>>, log': seq<Event<Value>>, c: Client)
    requires Kept(known, log, c) && log <= log'
    ensures Kept(known, log', c)
  {
  }

  lemma HandleKept(known: bool, log: seq<Event<Value>>, c: Client, prevKnown: bool)
    requires Kept(known, log, c) && (known ==> prevKnown)
    ensures Kept(known, log, HandleStep(c, log, prevKnown))
  {
  }

  lemma ReviveKept(known: bool, s: State, step: Step)
    requires step.Revive? && step.c in s.clients && Kept(known, SwitchLog(s.store), s.clients[step.c])
    ensures Kept(known, SwitchLog(Next(s, step).store), Next(s, step).clients[step.c])
  {
  }

  lemma ClientKept(known: bool, s: State, step: Step, c: nat)
    requires c in Next(s, step).clients && AllKept(known, s) && (known && step.Handle? ==> step.prevKnown)
    requires SwitchLog(s.store) <= SwitchLog(Next(s, step).store)
    ensures Kept(known, SwitchLog(Next(s, step).store), Next(s, step).clients[c])
  {
    var log, log' := SwitchLog(s.store), SwitchLog(Next(s, step).store);
    if step.Revive? && step.c == c && c in s.clients {
      ReviveKept(known, s, step);
    } else if c in s.clients {
      KeptLonger(known, log, log', s.clients[c]);
      if step.Handle? && step.c == c { HandleKept(known, log, s.clients[c], step.prevKnown); }
    }
  }

  lemma {:induction false} ExecKept(known: bool, s: State, steps: seq<Step>)
    requires Consistent(s.store) && AllKept(known, s)
    requires known ==> forall i :: 0 <= i < |steps| && steps[i].Handle? ==> steps[i].prevKnown
    ensures AllKept(known, Exec(s, steps))
    decreases |steps|
  {
    hide Next, Consistent, Kept;
    if steps != [] {
      LogStep(s, steps[0]);
      forall c | c in Next(s, steps[0]).clients
        ensures Kept(known, SwitchLog(Next(s, steps[0]).store), Next(s, steps[0]).clients[c])
      {
        ClientKept(known, s, steps[0], c);
      }
      ExecKept(known, Next(s, steps[0]), steps[1..]);
    }
  }

  /** In every run a leading dead callback has brought the switch back on a lease, with the
      time-to-live the expired value had, negative; only where a client can miss previous values
      may it be the fallback instead. */
  lemma RevivedInKind(known: bool, s: State, steps: seq<Step>, c: nat, a: nat)
    requires Init(s) && (known ==> forall i :: 0 <= i < |steps| && steps[i].Handle? ==> steps[i].prevKnown)
    requires c in Exec(s, steps).clients && a < |Exec(s, steps).clients[c].callbacks|
    requires Exec(s, steps).clients[c].callbacks[a].OnDead? && Exec(s, steps).clients[c].callbacks[a].leader
    ensures var cb, log := Exec(s, steps).clients[c].callbacks[a], SwitchLog(Exec(s, steps).store);
      && cb.event < |log| && log[cb.event].Delete?
      && cb.at < |log| && log[cb.at].Put? && log[cb.at].entry.lease != NO_LEASE
      && var before, after := log[cb.event].last.value, log[cb.at].entry.value;
         && after.Ttl?
         && (after.n == -Size(Scan(before)) || (!known && after.n == -FALLBACK_TTL))
  {
    ExecKept(known, s, steps);
    assert Kept(known, SwitchLog(Exec(s, steps).store), Exec(s, steps).clients[c]);
  }

  // ---- The next expiry ----

  ghost predicate Leased(st: SwitchStore) {
    Switch in st.kvs && st.kvs[Switch].value != Buried ==> st.kvs[Switch].lease != NO_LEASE
  }

  lemma NextLeased(s: State, step: Step)
    requires Consistent(s.store) && Leased(s.store)
    ensures Leased(Next(s, step).store)
  {
  }

  lemma {:induction false} ExecLeased(s: State, steps: seq<Step>)
    requires Consistent(s.store) && Leased(s.store)
    ensures Consistent(Exec(s, steps).store) && Leased(Exec(s, steps).store)
    decreases |steps|
  {
    hide Next, Consistent, Leased;
    if steps != [] {
      LogStep(s, steps[0]);
      NextLeased(s, steps[0]);
      ExecLeased(Next(s, steps[0]), steps[1..]);
    }
  }

  /** In every reachable state a switch that is there and not buried is on a live lease, and the
      end of that lease deletes it and is reported: exactly one more event, its deletion. */
  lemma ExpiryFollows(s: State, steps: seq<Step>)
    requires Init(s)
    requires Switch in Exec(s, steps).store.kvs && Exec(s, steps).store.kvs[Switch].value != Buried
    ensures var t := Exec(s, steps); var entry := t.store.kvs[Switch];
      && entry.lease in t.store.live
      && var t' := Next(t, Expire(entry.lease));
         Switch !in t'.store.kvs && SwitchLog(t'.store) == SwitchLog(t.store) + [Delete(entry)]
  {
    assert KeyConsistent(s.store, Switch);
    ExecLeased(s, steps);
    var t := Exec(s, steps);
    EndLeaseLog(t.store, t.store.kvs[Switch].lease, Switch);
  }
}
