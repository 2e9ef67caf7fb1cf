/** Burying a switch: when it is final. */
module Burial {
  import opened Etcd
  import opened Liveness

  /** An event that makes a client call back or touch the store. */
  predicate Loud(e: Event<Value>) {
    match e
    case Put(entry, _) => Scan(entry.value) > 0 && Scan(entry.value) != MAX_INT64
    case Delete(last) => last.value != Buried
  }

  /** No client is in the middle of an expiry or still has a loud event in front of it. */
  ghost predicate NothingPending(s: State) {
    forall c :: c in s.clients ==> ClientQuiet(SwitchLog(s.store), s.clients[c])
  }

  ghost predicate ClientQuiet(log: seq<Event<Value>>, c: Client) {
    c.phase.Idle? && forall e :: c.seen <= e < |log| ==> !Loud(log[e])
  }

  /** The switch is gone, or holds nothing but the burial mark that no lease can take away. */
  ghost predicate Interred(st: SwitchStore) {
    Switch in st.kvs ==> st.kvs[Switch].value == Buried && st.kvs[Switch].lease == NO_LEASE
  }

  ghost predicate Asleep(s: State) { NothingPending(s) && Interred(s.store) }

  /** No assertions; previous values are delivered. */
  ghost predicate Unasserted(steps: seq<Step>) {
    forall i :: 0 <= i < |steps| ==> !steps[i].Assert? && (steps[i].Handle? ==> steps[i].prevKnown)
  }

  /** From `s` to `t` no client that was there has called back. */
  ghost predicate Silent(s: State, t: State) {
    forall c :: c in s.clients ==> c in t.clients && t.clients[c].callbacks == s.clients[c].callbacks
  }

  // ---- Asleep is enough ----

  lemma NextAsleep(s: State, step: Step)
    requires Consistent(s.store) && Asleep(s) && Unasserted([step])
    ensures Consistent(Next(s, step).store) && Asleep(Next(s, step)) && Silent(s, Next(s, step))
  {
    assert [step][0] == step;
    LogStep(s, step);
    var s' := Next(s, step);
    var log, log' := SwitchLog(s.store), SwitchLog(s'.store);
    if step.Expire? { EndLeaseLog(s.store, step.lease, Switch); }
    forall c | c in s'.clients ensures ClientQuiet(log', s'.clients[c]) {
      if c in s.clients { assert ClientQuiet(log, s.clients[c]); }
    }
  }

  lemma {:induction false} ExecAsleep(s: State, steps: seq<Step>)
    requires Consistent(s.store) && Asleep(s) && Unasserted(steps)
    ensures Asleep(Exec(s, steps)) && Silent(s, Exec(s, steps))
    decreases |steps|
  {
    if steps != [] {
      hide Asleep, Consistent, Next;
      assert [steps[0]][0] == steps[0];
      NextAsleep(s, steps[0]);
      ExecAsleep(Next(s, steps[0]), steps[1..]);
    } else {
      assert Silent(s, s);
    }
  }

  /** The two writes of Bury with any number of unasserted steps around them: if nothing was
      pending before the first, the switch ends up absent, and no callback happens on the way. */
  lemma BuryIsFinal(s: State, between: seq<Step>, after: seq<Step>)
    requires Consistent(s.store) && NothingPending(s) && Unasserted(between) && Unasserted(after)
    requires Unburied(after)
    ensures var marked := Exec(Next(s, BuryMark), between);
      var end := Exec(Next(marked, BuryErase), after);
      Switch !in end.store.kvs && Silent(s, end) && Asleep(end)
  {
    var first := Next(s, BuryMark);
    assert Asleep(first) by { MarkAsleep(s); }
    LogStep(s, BuryMark);
    ExecAsleep(first, between);
    ExecConsistent(first, between);
    var marked := Exec(first, between);
    assert [BuryErase][0] == BuryErase;
    NextAsleep(marked, BuryErase);
    QuietIsUnreviving(Next(marked, BuryErase));
    ExecAbsent(Next(marked, BuryErase), after);
    ExecAsleep(Next(marked, BuryErase), after);
  }

  lemma MarkAsleep(s: State)
    requires NothingPending(s)
    ensures Asleep(Next(s, BuryMark))
  {
    var log' := SwitchLog(Next(s, BuryMark).store);
    forall c | c in s.clients ensures ClientQuiet(log', s.clients[c]) {
      assert ClientQuiet(SwitchLog(s.store), s.clients[c]);
    }
  }

  lemma {:induction false} ExecConsistent(s: State, steps: seq<Step>)
    requires Consistent(s.store)
    ensures Consistent(Exec(s, steps).store)
    decreases |steps|
  {
    if steps != [] {
      LogStep(s, steps[0]);
      ExecConsistent(Next(s, steps[0]), steps[1..]);
    }
  }

  // ---- Asleep is necessary ----

  /** The number of callbacks a client has made. */
  function Calls(s: State, c: nat): nat { if c in s.clients then |s.clients[c].callbacks| else 0 }

  lemma ExecCons(s: State, step: Step, rest: seq<Step>)
    ensures Exec(s, [step] + rest) == Exec(Next(s, step), rest)
    ensures Unasserted([step]) && Unasserted(rest) ==> Unasserted([step] + rest)
  {
    assert ([step] + rest)[1..] == rest;
    assert [step][0] == step;
  }

  lemma FinishRevival(s: State, c: nat) returns (steps: seq<Step>)
    requires c in s.clients && s.clients[c].phase.Reviving? && s.store.nextLease > 0
    ensures Unasserted(steps) && Calls(Exec(s, steps), c) > Calls(s, c)
  {
    var revive := Revive(c, s.store.nextLease);
    steps := [GrantLease] + ([revive] + []);
    var s1 := Next(s, GrantLease);
    ExecCons(s, GrantLease, [revive] + []);
    ExecCons(s1, revive, []);
  }

  lemma {:induction false} ReachLoud(s: State, c: nat, e: nat) returns (steps: seq<Step>)
    requires c in s.clients && s.clients[c].phase.Idle? && s.store.nextLease > 0
    requires s.clients[c].seen <= e < |SwitchLog(s.store)| && Loud(SwitchLog(s.store)[e])
    ensures Unasserted(steps) && Calls(Exec(s, steps), c) > Calls(s, c)
    decreases e - s.clients[c].seen
  {
    var handle := Handle(c, true);
    var s1 := Next(s, handle);
    var event := SwitchLog(s.store)[s.clients[c].seen];
    var rest: seq<Step> := [];
    if Loud(event) && event.Delete? {
      rest := FinishRevival(s1, c);
    } else if !Loud(event) {
      assert s1.clients[c] == Done(s.clients[c]);
      rest := ReachLoud(s1, c, e);
    }
    steps := [handle] + rest;
    ExecCons(s, handle, rest);
  }

  ghost predicate SeenInLog(s: State) {
    forall c :: c in s.clients ==> s.clients[c].seen <= |SwitchLog(s.store)|
  }

  /** Only the burial mark is without a lease. */
  ghost predicate LeasedUnlessBuried(st: SwitchStore) {
    Switch in st.kvs ==> (st.kvs[Switch].value == Buried <==> st.kvs[Switch].lease == NO_LEASE)
  }

  lemma {:induction false} ExecLeased(s: State, steps: seq<Step>)
    requires Consistent(s.store) && LeasedUnlessBuried(s.store)
    ensures LeasedUnlessBuried(Exec(s, steps).store)
    decreases |steps|
  {
    if steps != [] {
      LogStep(s, steps[0]);
      NextLeased(s, steps[0]);
      hide Next, Consistent, LeasedUnlessBuried;
      ExecLeased(Next(s, steps[0]), steps[1..]);
    }
  }

  lemma NextLeased(s: State, step: Step)
    requires Consistent(s.store) && LeasedUnlessBuried(s.store)
    ensures LeasedUnlessBuried(Next(s, step).store)
  {
    if step.Expire? { EndLeaseLog(s.store, step.lease, Switch); }
  }

  /** A switch that is neither gone nor marked can expire, and that reaches every client. */
  lemma ExpiryReaches(s: State, c: nat) returns (steps: seq<Step>)
    requires Consistent(s.store) && LeasedUnlessBuried(s.store) && SeenInLog(s) && !Interred(s.store)
    requires c in s.clients && s.clients[c].phase.Idle?
    ensures Unasserted(steps) && Calls(Exec(s, steps), c) > Calls(s, c)
  {
    var l := s.store.kvs[Switch].lease;
    var s1 := Next(s, Expire(l));
    EndLeaseLog(s.store, l, Switch);
    var rest := ReachLoud(s1, c, |SwitchLog(s.store)|);
    steps := [Expire(l)] + rest;
    ExecCons(s, Expire(l), rest);
  }

  lemma AwakeMakesNoise(s: State) returns (steps: seq<Step>)
    requires Consistent(s.store) && LeasedUnlessBuried(s.store) && SeenInLog(s) && !Asleep(s) && s.clients != map[]
    ensures Unasserted(steps) && !Silent(s, Exec(s, steps))
  {
    if !NothingPending(s) {
      var c :| c in s.clients && !ClientQuiet(SwitchLog(s.store), s.clients[c]);
      if s.clients[c].phase.Reviving? {
        steps := FinishRevival(s, c);
      } else {
        var e :| s.clients[c].seen <= e < |SwitchLog(s.store)| && Loud(SwitchLog(s.store)[e]);
        steps := ReachLoud(s, c, e);
      }
    } else {
      var c :| c in s.clients;
      assert ClientQuiet(SwitchLog(s.store), s.clients[c]);
      steps := ExpiryReaches(s, c);
    }
  }

  /** What holds in every reachable state. */
  lemma Reachable(s0: State, run: seq<Step>)
    requires Init(s0)
    ensures var s := Exec(s0, run); Consistent(s.store) && LeasedUnlessBuried(s.store) && SeenInLog(s)
  {
    assert KeyConsistent(s0.store, Switch);
    ExecConsistent(s0, run);
    ExecLeased(s0, run);
    ExecRecorded(s0, run);
    hide Exec;
    var s := Exec(s0, run);
    forall c | c in s.clients ensures s.clients[c].seen <= |SwitchLog(s.store)| {
      assert Recorded(SwitchLog(s.store), s.clients[c]);
    }
  }

  /** In every reachable state: no client there is ever called back, however the run goes on
      without new assertions, if and only if there is none, or no client has an expiry or a sign
      of life still in front of it and the switch is gone or marked. */
  lemma BurialExact(s0: State, run: seq<Step>)
    requires Init(s0)
    ensures var s := Exec(s0, run);
      (forall steps :: Unasserted(steps) ==> Silent(s, Exec(s, steps))) <==> s.clients == map[] || Asleep(s)
  {
    Reachable(s0, run);
    var s := Exec(s0, run);
    if Asleep(s) {
      forall steps | Unasserted(steps) ensures Silent(s, Exec(s, steps)) { ExecAsleep(s, steps); }
    } else if s.clients != map[] {
      var steps := AwakeMakesNoise(s);
    }
  }

  // ---- Staying absent ----

  /** An expiry, which its handler answers by bringing the switch back. */
  predicate Expiry(e: Event<Value>) { e.Delete? && e.last.value != Buried }

  /** No client is bringing the switch back, or has an expiry in front of it. */
  ghost predicate NoRevivalAhead(s: State) {
    forall c :: c in s.clients ==> Unreviving(SwitchLog(s.store), s.clients[c])
  }

  ghost predicate Unreviving(log: seq<Event<Value>>, c: Client) {
    c.phase.Idle? && forall e :: c.seen <= e < |log| ==> !Expiry(log[e])
  }

  ghost predicate Unburied(steps: seq<Step>) { forall i :: 0 <= i < |steps| ==> !steps[i].BuryMark? }

  lemma QuietIsUnreviving(s: State)
    requires NothingPending(s)
    ensures NoRevivalAhead(s)
  {
    forall c | c in s.clients ensures Unreviving(SwitchLog(s.store), s.clients[c]) {
      assert ClientQuiet(SwitchLog(s.store), s.clients[c]);
    }
  }

  lemma NextAbsent(s: State, step: Step)
    requires Consistent(s.store) && Switch !in s.store.kvs && NoRevivalAhead(s) && Unasserted([step]) && !step.BuryMark?
    ensures Consistent(Next(s, step).store) && Switch !in Next(s, step).store.kvs && NoRevivalAhead(Next(s, step))
  {
    assert [step][0] == step;
    LogStep(s, step);
    var s' := Next(s, step);
    if step.Revive? && step.c in s.clients { assert Unreviving(SwitchLog(s.store), s.clients[step.c]); }
    if step.Expire? { EndLeaseLog(s.store, step.lease, Switch); }
    forall c | c in s'.clients ensures Unreviving(SwitchLog(s'.store), s'.clients[c]) {
      if c in s.clients { assert Unreviving(SwitchLog(s.store), s.clients[c]); }
    }
  }

  lemma {:induction false} ExecAbsent(s: State, steps: seq<Step>)
    requires Consistent(s.store) && Switch !in s.store.kvs && NoRevivalAhead(s) && Unasserted(steps) && Unburied(steps)
    ensures Switch !in Exec(s, steps).store.kvs
    decreases |steps|
  {
    hide Consistent, NoRevivalAhead, Next;
    if steps != [] {
      assert [steps[0]][0] == steps[0];
      NextAbsent(s, steps[0]);
      ExecAbsent(Next(s, steps[0]), steps[1..]);
    }
  }

  ghost predicate BringsBack(s: State, steps: seq<Step>) {
    Unasserted(steps) && Unburied(steps) && Switch in Exec(s, steps).store.kvs
  }

  lemma ReviveBringsBack(s: State, c: nat) returns (steps: seq<Step>)
    requires Consistent(s.store) && Switch !in s.store.kvs && c in s.clients && s.clients[c].phase.Reviving?
    ensures BringsBack(s, steps)
  {
    var revive := Revive(c, s.store.nextLease);
    steps := [GrantLease] + ([revive] + []);
    var s1 := Next(s, GrantLease);
    ExecCons(s, GrantLease, [revive] + []);
    ExecCons(s1, revive, []);
  }

  lemma {:induction false} ExpiryBringsBack(s: State, c: nat, e: nat) returns (steps: seq<Step>)
    requires Consistent(s.store) && Switch !in s.store.kvs && c in s.clients && s.clients[c].phase.Idle?
    requires s.clients[c].seen <= e < |SwitchLog(s.store)| && Expiry(SwitchLog(s.store)[e])
    ensures BringsBack(s, steps)
    decreases e - s.clients[c].seen
  {
    var handle := Handle(c, true);
    var s1 := Next(s, handle);
    var rest: seq<Step>;
    if Expiry(SwitchLog(s.store)[s.clients[c].seen]) {
      assert s1.clients[c].phase.Reviving?;
      rest := ReviveBringsBack(s1, c);
    } else {
      assert s1.clients[c].phase.Idle? && s1.clients[c].seen == s.clients[c].seen + 1;
      rest := ExpiryBringsBack(s1, c, e);
    }
    steps := [handle] + rest;
    ExecCons(s, handle, rest);
  }

  lemma ComesBack(s: State) returns (steps: seq<Step>)
    requires Consistent(s.store) && (Switch in s.store.kvs || !NoRevivalAhead(s))
    ensures BringsBack(s, steps)
  {
    if Switch in s.store.kvs {
      steps := [];
    } else {
      var c :| c in s.clients && !Unreviving(SwitchLog(s.store), s.clients[c]);
      if s.clients[c].phase.Reviving? {
        steps := ReviveBringsBack(s, c);
      } else {
        var e :| s.clients[c].seen <= e < |SwitchLog(s.store)| && Expiry(SwitchLog(s.store)[e]);
        steps := ExpiryBringsBack(s, c, e);
      }
    }
  }

  /** In every reachable state: the switch stays absent for ever, however the run goes on without
      new assertions and burials, if and only if it is absent and no client is reviving it or has
      an expiry in front of it. Signs of life still to be called out do no harm. */
  lemma AbsenceExact(s0: State, run: seq<Step>)
    requires Init(s0)
    ensures var s := Exec(s0, run);
      (forall steps :: Unasserted(steps) && Unburied(steps) ==> Switch !in Exec(s, steps).store.kvs)
      <==> Switch !in s.store.kvs && NoRevivalAhead(s)
  {
    Reachable(s0, run);
    var s := Exec(s0, run);
    if Switch !in s.store.kvs && NoRevivalAhead(s) {
      forall steps | Unasserted(steps) && Unburied(steps) ensures Switch !in Exec(s, steps).store.kvs { ExecAbsent(s, steps); }
    } else {
      var steps := ComesBack(s);
      assert BringsBack(s, steps);
    }
  }
}
