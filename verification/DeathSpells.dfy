/** A run in which one client reports two deaths, both of an entity that was alive, with no sign
    of life in between: the entity is asserted alive with the largest time-to-live. Leases that
    long need not be had: assertions of death with the smallest one supply them, and assertions of
    life go on the lease that is there. */
module DeathSpells {
  import opened Etcd
  import opened Liveness

  // ---- Putting runs together ----

  lemma {:induction false} ExecAppend(s: State, a: seq<Step>, b: seq<Step>)
    ensures Exec(s, a + b) == Exec(Exec(s, a), b)
    decreases |a|
  {
    hide Next;
    if a == [] {
      assert a + b == b;
    } else {
      assert (a + b)[0] == a[0] && (a + b)[1..] == a[1..] + b;
      ExecAppend(Next(s, a[0]), a[1..], b);
    }
  }

  lemma ExecOne(s: State, step: Step)
    ensures Exec(s, [step]) == Next(s, step)
  {
    hide Next;
    assert [step][1..] == [];
    assert Exec(Next(s, step), []) == Next(s, step);
  }

  /** Life is asserted with the largest time-to-live only, and death with the smallest. */
  ghost predicate Extreme(step: Step) {
    step.Assert? ==> step.ttl == if step.alive then MAX_INT64 else FALLBACK_TTL
  }

  ghost predicate OnlyExtreme(steps: seq<Step>) { forall i :: 0 <= i < |steps| ==> Extreme(steps[i]) }

  /** The run leads from `s` to `t`, with no other assertions. */
  ghost predicate Leads(s: State, steps: seq<Step>, t: State) { Exec(s, steps) == t && OnlyExtreme(steps) }

  lemma LeadsOn(s: State, a: seq<Step>, t: State, step: Step)
    requires Leads(s, a, t) && Extreme(step)
    ensures Leads(s, a + [step], Next(t, step))
  {
    hide Next, Exec;
    ExecAppend(s, a, [step]);
    ExecOne(t, step);
  }

  // ---- One death ----

  /** The switch is there, on a live lease, and the client has nothing but silent writes in front of it. */
  ghost predicate Resting(s: State, x: Client) {
    && Consistent(s.store) && s.clients == map[0 := x] && x.phase.Idle? && x.seen <= |SwitchLog(s.store)|
    && (forall i :: x.seen <= i < |SwitchLog(s.store)| ==> Muted(SwitchLog(s.store)[i]))
    && Switch in s.store.kvs && s.store.kvs[Switch].lease != NO_LEASE
  }

  /** A write that is handled in silence. */
  ghost predicate Muted(e: Event<Value>) { e.Put? && (Scan(e.entry.value) <= 0 || Scan(e.entry.value) == MAX_INT64) }

  /** Dead with the smallest time-to-live, on a lease of its own. */
  lemma AssertDeath(s: State) returns (steps: seq<Step>, t: State)
    requires Consistent(s.store)
    ensures Leads(s, steps, t) && Consistent(t.store) && t.clients == s.clients
    ensures Switch in t.store.kvs && t.store.kvs[Switch].lease != NO_LEASE
    ensures SwitchLog(t.store) == SwitchLog(s.store) + [Put(t.store.kvs[Switch], Lookup(s.store, Switch))]
    ensures Muted(Put(t.store.kvs[Switch], Lookup(s.store, Switch)))
  {
    var l := s.store.nextLease;
    var s1 := Next(s, GrantLease);
    LogStep(s, GrantLease);
    ExecOne(s, GrantLease);
    t := Next(s1, Assert(FALLBACK_TTL, false, l));
    LogStep(s1, Assert(FALLBACK_TTL, false, l));
    LeadsOn(s, [GrantLease], s1, Assert(FALLBACK_TTL, false, l));
    steps := [GrantLease] + [Assert(FALLBACK_TTL, false, l)];
  }

  /** Alive with the largest time-to-live, on the lease that is there. */
  lemma AssertMax(s: State) returns (t: State)
    requires Consistent(s.store) && Switch in s.store.kvs && s.store.kvs[Switch].lease != NO_LEASE
    ensures t == Next(s, Assert(MAX_INT64, true, s.store.kvs[Switch].lease)) && Consistent(t.store)
    ensures t.clients == s.clients
    ensures Switch in t.store.kvs && t.store.kvs[Switch].value == Ttl(MAX_INT64)
    ensures t.store.kvs[Switch].lease == s.store.kvs[Switch].lease && t.store.kvs[Switch].lease in t.store.live
    ensures SwitchLog(t.store) == SwitchLog(s.store) + [Put(t.store.kvs[Switch], Lookup(s.store, Switch))]
  {
    t := Next(s, Assert(MAX_INT64, true, s.store.kvs[Switch].lease));
    LogStep(s, Assert(MAX_INT64, true, s.store.kvs[Switch].lease));
  }

  lemma ExpireNow(s: State) returns (t: State)
    requires Consistent(s.store) && Switch in s.store.kvs
    requires s.store.kvs[Switch].lease != NO_LEASE && s.store.kvs[Switch].lease in s.store.live
    ensures t == Next(s, Expire(s.store.kvs[Switch].lease)) && Consistent(t.store) && t.clients == s.clients
    ensures SwitchLog(t.store) == SwitchLog(s.store) + [Delete(s.store.kvs[Switch])]
  {
    t := Next(s, Expire(s.store.kvs[Switch].lease));
    LogStep(s, Expire(s.store.kvs[Switch].lease));
    EndLeaseLog(s.store, s.store.kvs[Switch].lease, Switch);
  }

  lemma HandleMuted(s: State, x: Client) returns (t: State)
    requires s.clients == map[0 := x] && x.phase.Idle? && x.seen < |SwitchLog(s.store)|
    requires Muted(SwitchLog(s.store)[x.seen])
    ensures t == Next(s, Handle(0, true)) && t.store == s.store && t.clients == map[0 := x.(seen := x.seen + 1)]
  {
    t := Next(s, Handle(0, true));
  }

  /** The muted writes in front of the client, one by one. */
  lemma {:induction false} HandleAllMuted(s: State, x: Client, upTo: nat) returns (steps: seq<Step>, t: State)
    requires s.clients == map[0 := x] && x.phase.Idle? && x.seen <= upTo <= |SwitchLog(s.store)|
    requires forall i :: x.seen <= i < upTo ==> Muted(SwitchLog(s.store)[i])
    ensures Leads(s, steps, t) && t.store == s.store && t.clients == map[0 := x.(seen := upTo)]
    decreases upTo
  {
    if upTo == x.seen {
      steps, t := [], s;
    } else {
      var a, s1 := HandleAllMuted(s, x, upTo - 1);
      hide Next, Muted, Exec;
      t := HandleMuted(s1, x.(seen := upTo - 1));
      LeadsOn(s, a, s1, Handle(0, true));
      steps := a + [Handle(0, true)];
    }
  }

  lemma HandleDeath(s: State, x: Client) returns (t: State)
    requires s.clients == map[0 := x] && x.phase.Idle? && x.seen < |SwitchLog(s.store)|
    requires SwitchLog(s.store)[x.seen].Delete? && SwitchLog(s.store)[x.seen].last.value == Ttl(MAX_INT64)
    ensures t == Next(s, Handle(0, true)) && t.store == s.store
    ensures t.clients == map[0 := x.(phase := Reviving(-MAX_INT64, Alive))]
  {
    t := Next(s, Handle(0, true));
  }

  /** The handler finds the switch back already, leads nothing and calls out the death. */
  lemma ReviveLate(s: State, x: Client) returns (t: State)
    requires s.clients == map[0 := x] && x.phase == Reviving(-MAX_INT64, Alive)
    requires Switch in s.store.kvs && s.store.kvs[Switch].lease != NO_LEASE
    ensures t == Next(s, Revive(0, s.store.kvs[Switch].lease)) && t.store == s.store
    ensures t.clients == map[0 := Call(x, OnDead(x.seen, Alive, false, |SwitchLog(s.store)|))]
  {
    t := Next(s, Revive(0, s.store.kvs[Switch].lease));
  }

  lemma LeadsThen(s: State, a: seq<Step>, t: State, b: seq<Step>, u: State)
    requires Leads(s, a, t) && Leads(t, b, u)
    ensures Leads(s, a + b, u)
  {
    ExecAppend(s, a, b);
  }

  /** Asserted alive, expired, asserted dead, and handled: one more death, of an entity reported
      alive before. */
  lemma DieOnce(s: State, x: Client) returns (steps: seq<Step>, t: State, y: Client)
    requires Resting(s, x)
    ensures Leads(s, steps, t) && Resting(t, y)
    ensures exists e, at :: y.callbacks == x.callbacks + [OnDead(e, Alive, false, at)]
  {
    var a, s3, n := ExpireUnseen(s, x);
    hide Next, Exec, Leads, Consistent, SwitchLog, Muted, Resting;
    var b, s4 := HandleAllMuted(s3, x, n);
    LeadsThen(s, a, s3, b, s4);
    var s5 := HandleDeath(s4, x.(seen := n));
    LeadsOn(s, a + b, s4, Handle(0, true));
    var x' := x.(seen := n, phase := Reviving(-MAX_INT64, Alive));
    t := ReviveLate(s5, x');
    LeadsOn(s, a + b + [Handle(0, true)], s5, Revive(0, s5.store.kvs[Switch].lease));
    steps := a + b + [Handle(0, true)] + [Revive(0, s5.store.kvs[Switch].lease)];
    y := Call(x', OnDead(n, Alive, false, |SwitchLog(s5.store)|));
    assert y.callbacks == x.callbacks + [OnDead(n, Alive, false, |SwitchLog(s5.store)|)];
    RestingAgain(s3, t, y, n);
  }

  lemma RestingAgain(s: State, t: State, y: Client, n: nat)
    requires Consistent(s.store) && t.store == s.store && t.clients == map[0 := y] && y.phase.Idle? && y.seen == n + 1
    requires |SwitchLog(s.store)| == n + 2 && Muted(SwitchLog(s.store)[n + 1])
    requires Switch in s.store.kvs && s.store.kvs[Switch].lease != NO_LEASE
    ensures Resting(t, y)
  {
  }

  /** The expiry is the last but one event, all silent before and after. */
  lemma ExpireUnseen(s: State, x: Client) returns (steps: seq<Step>, t: State, n: nat)
    requires Resting(s, x)
    ensures Leads(s, steps, t) && Consistent(t.store) && t.clients == map[0 := x] && x.seen <= n
    ensures |SwitchLog(t.store)| == n + 2 && Muted(SwitchLog(t.store)[n + 1])
    ensures SwitchLog(t.store)[n].Delete? && SwitchLog(t.store)[n].last.value == Ttl(MAX_INT64)
    ensures forall i :: x.seen <= i < n ==> Muted(SwitchLog(t.store)[i])
    ensures Switch in t.store.kvs && t.store.kvs[Switch].lease != NO_LEASE
  {
    hide Next, Exec, Consistent, SwitchLog;
    var l := s.store.kvs[Switch].lease;
    var s1 := AssertMax(s);
    ExecOne(s, Assert(MAX_INT64, true, l));
    var s2 := ExpireNow(s1);
    LeadsOn(s, [Assert(MAX_INT64, true, l)], s1, Expire(l));
    var b;
    b, t := AssertDeath(s2);
    LeadsThen(s, [Assert(MAX_INT64, true, l)] + [Expire(l)], s2, b, t);
    steps := [Assert(MAX_INT64, true, l)] + [Expire(l)] + b;
    n := |SwitchLog(s1.store)|;
  }

  lemma Begin(s: State) returns (steps: seq<Step>, t: State, x: Client)
    requires Init(s)
    ensures Leads(s, steps, t) && Resting(t, x) && x.callbacks == []
  {
    x := Client(0, 0, Idle, []);
    var s1 := Next(s, Watch(0));
    ExecOne(s, Watch(0));
    LogStep(s, Watch(0));
    hide Next, Exec, Leads;
    var a;
    a, t := AssertDeath(s1);
    assert Leads(s, [Watch(0)], s1) by { FirstStep(s, Watch(0)); }
    LeadsThen(s, [Watch(0)], s1, a, t);
    steps := [Watch(0)] + a;
  }

  lemma FirstStep(s: State, step: Step)
    requires Extreme(step)
    ensures Leads(s, [step], Next(s, step))
  {
    hide Next;
    ExecOne(s, step);
  }

  /** From every initial state there is a run, asserting life with the largest time-to-live only, in
      which a client calls out two deaths, each as a change from alive, and nothing in between. */
  lemma DeathsInARow(s: State) returns (steps: seq<Step>)
    requires Init(s)
    ensures OnlyExtreme(steps) && 0 in Exec(s, steps).clients
    ensures var cbs := Exec(s, steps).clients[0].callbacks;
      && |cbs| == 2 && cbs[0].OnDead? && cbs[0].prev.Alive? && cbs[1].OnDead? && cbs[1].prev.Alive?
  {
    hide Next, Exec, Resting, Init;
    var a, s1, x0 := Begin(s);
    var b, s2, x1 := DieOnce(s1, x0);
    var c, s3, x2 := DieOnce(s2, x1);
    LeadsThen(s, a, s1, b, s2);
    LeadsThen(s, a + b, s2, c, s3);
    steps := a + b + c;
    RestingClients(s3, x2);
  }

  lemma RestingClients(s: State, x: Client)
    requires Resting(s, x)
    ensures s.clients == map[0 := x]
  {
  }
}
