/** Progress and tidiness of the ring protocol: a watcher always gets done with what is in front
    of it, and leases are not left behind. */
module RingProgress {
  import opened Etcd
  import opened RingSelection
  import opened RingProtocol
  import opened RingAgreement

  // ---- What the reads have found ----

  ghost predicate HasFound(p: Phase) {
    && (p.Fill? ==> p.got != [])
    && (p.Selected? || p.Granted? || p.Releasing? ==> p.found != [])
  }

  ghost predicate AllHaveFound(s: State) { forall w :: w in s.watchers ==> HasFound(s.watchers[w].phase) }

  lemma NextHasFound(values: nat, s: State, step: Step)
    requires AllHaveFound(s)
    ensures AllHaveFound(Next(values, s, step))
  {
    hide Items, Delivered, Following, ReadFrom;
  }

  lemma {:induction false} ExecHasFound(values: nat, s: State, steps: seq<Step>)
    requires AllHaveFound(s)
    ensures AllHaveFound(Exec(values, s, steps))
    decreases |steps|
  {
    hide Next, AllHaveFound;
    if steps != [] {
      NextHasFound(values, s, steps[0]);
      ExecHasFound(values, Next(values, s, steps[0]), steps[1..]);
    }
  }

  // ---- Nobody gets stuck ----

  /** The call to the store that is due next when events are waiting. */
  function Due(w: nat, p: Phase): Step {
    match p
    case Selected(_) => GrantLease(w)
    case Ensuring(_) => GrantLease(w)
    case Granted(_, _) => Commit(w)
    case EnsureGranted(_, _) => Commit(w)
    case Releasing(_, _) => Revoke(w)
    case Failing(_) => Revoke(w)
    case EnsureReleasing(_) => Revoke(w)
    case _ => Read(w)
  }

  function Rank(p: Phase): nat {
    match p
    case Ensuring(_) => 9
    case EnsureGranted(_, _) => 8
    case EnsureReleasing(_) => 7
    case Idle => 6
    case Restart => 5
    case Fill(_) => 4
    case Selected(_) => 3
    case Granted(_, _) => 2
    case _ => 1
  }

  lemma DueHelps(values: nat, s: State, w: nat)
    requires AllHaveFound(s) && w in s.watchers && s.watchers[w].seen < |TriggerLog(s.store)|
    requires s.watchers[w].phase.Fill? ==> |s.watchers[w].phase.got| < values + 1
    ensures var x, x' := s.watchers[w], Next(values, s, Due(w, s.watchers[w].phase)).watchers[w];
      x'.seen == x.seen + 1 || (x'.seen == x.seen && Rank(x'.phase) < Rank(x.phase))
  {
    hide Items, Delivered, Following, ReadFrom;
  }

  /** A short answer is one that still has room. */
  ghost predicate ShortFills(values: nat, s: State) {
    forall w :: w in s.watchers && s.watchers[w].phase.Fill? ==> |s.watchers[w].phase.got| < values + 1
  }

  lemma NextShortFills(values: nat, s: State, step: Step)
    requires ShortFills(values, s)
    ensures ShortFills(values, Next(values, s, step))
  {
    hide Items, Delivered, Following, ReadFrom;
  }

  lemma {:induction false} ExecShortFills(values: nat, s: State, steps: seq<Step>)
    requires ShortFills(values, s)
    ensures ShortFills(values, Exec(values, s, steps))
    decreases |steps|
  {
    hide Next, ShortFills;
    if steps != [] {
      NextShortFills(values, s, steps[0]);
      ExecShortFills(values, Next(values, s, steps[0]), steps[1..]);
    }
  }

  lemma WatcherStays(values: nat, s: State, step: Step, w: nat)
    requires Safe(s) && w in s.watchers
    ensures w in Next(values, s, step).watchers && |TriggerLog(s.store)| <= |TriggerLog(Next(values, s, step).store)|
  {
    LogGrows(values, s, step);
  }

  /** The steps a watcher takes on its own until it is done with the event in front of it. */
  lemma {:induction false} FinishAlone(values: nat, s: State, w: nat) returns (steps: seq<Step>)
    requires Safe(s) && AllHaveFound(s) && ShortFills(values, s)
    requires w in s.watchers && s.watchers[w].seen < |TriggerLog(s.store)|
    ensures |steps| <= Rank(s.watchers[w].phase) && forall i :: 0 <= i < |steps| ==> Actor(steps[i]) == Some(w)
    ensures w in Exec(values, s, steps).watchers && Exec(values, s, steps).watchers[w].seen == s.watchers[w].seen + 1
    decreases Rank(s.watchers[w].phase)
  {
    var step := Due(w, s.watchers[w].phase);
    DueHelps(values, s, w);
    NextSafe(values, s, step);
    NextHasFound(values, s, step);
    NextShortFills(values, s, step);
    WatcherStays(values, s, step, w);
    hide Next, Safe, AllHaveFound, ShortFills;
    var t := Next(values, s, step);
    var rest: seq<Step> := [];
    if t.watchers[w].seen == s.watchers[w].seen { rest := FinishAlone(values, t, w); }
    steps := [step] + rest;
    assert steps[1..] == rest;
  }

  /** From every reachable state, whatever the others have left behind, a watcher with an event in
      front of it is done with it after at most nine calls of its own. */
  lemma NeverStuck(values: nat, s: State, run: seq<Step>, w: nat) returns (steps: seq<Step>)
    requires Init(s) && w in Exec(values, s, run).watchers
    requires Exec(values, s, run).watchers[w].seen < |TriggerLog(Exec(values, s, run).store)|
    ensures |steps| <= 9 && forall i :: 0 <= i < |steps| ==> Actor(steps[i]) == Some(w)
    ensures var t := Exec(values, Exec(values, s, run), steps);
      w in t.watchers && t.watchers[w].seen == Exec(values, s, run).watchers[w].seen + 1
  {
    ExecSafe(values, s, run);
    ExecHasFound(values, s, run);
    ExecShortFills(values, s, run);
    hide Exec, Safe, AllHaveFound, ShortFills;
    steps := FinishAlone(values, Exec(values, s, run), w);
  }

  // ---- No lease is left behind ----

  /** Every live lease from `n0` on is in some watcher's hands or carries the trigger. */
  ghost predicate Accounted(s: State, n0: nat) {
    forall l :: l in s.store.live && l >= n0 ==> InFlight(s, l) || (Trigger in s.store.kvs && s.store.kvs[Trigger].lease == l)
  }

  /** Nobody else grants leases or deletes the trigger. */
  ghost predicate Undisturbed(steps: seq<Step>) {
    forall i :: 0 <= i < |steps| ==> !steps[i].OtherGrant? && steps[i] != OtherDelete(Trigger)
  }

  lemma StillInFlight(s: State, s': State, w: nat, l: nat)
    requires InFlight(s, l) && w in s.watchers && w in s'.watchers
    requires forall v :: v in s.watchers && v != w ==> v in s'.watchers && s'.watchers[v] == s.watchers[v]
    requires Held(s.watchers[w].phase) == l ==> Held(s'.watchers[w].phase) == l
    ensures InFlight(s', l)
  {
    var v :| v in s.watchers && Held(s.watchers[v].phase) == l;
    assert v in s'.watchers && Held(s'.watchers[v].phase) == l;
  }

  lemma ActorAccounted(values: nat, s: State, step: Step, n0: nat, w: nat)
    requires Safe(s) && Accounted(s, n0) && n0 > 0 && Actor(step) == Some(w) && w in s.watchers
    ensures Accounted(Next(values, s, step), n0)
  {
    hide Items, Delivered, Following, ReadFrom, OnlyCreations;
    var s' := Next(values, s, step);
    assert w in s'.watchers;
    forall l | l in s'.store.live && l >= n0
      ensures InFlight(s', l) || (Trigger in s'.store.kvs && s'.store.kvs[Trigger].lease == l)
    {
      if l !in s.store.live {
        assert Held(s'.watchers[w].phase) == l;
      } else if InFlight(s, l) && (Held(s.watchers[w].phase) == l ==> Held(s'.watchers[w].phase) == l) {
        StillInFlight(s, s', w, l);
      }
    }
  }

  lemma NextAccounted(values: nat, s: State, step: Step, n0: nat)
    requires Safe(s) && Accounted(s, n0) && n0 > 0 && Undisturbed([step])
    ensures Accounted(Next(values, s, step), n0)
  {
    hide Items, Delivered, Following, ReadFrom, OnlyCreations;
    assert [step][0] == step;
    if Actor(step).Some? && Actor(step).value in s.watchers {
      ActorAccounted(values, s, step, n0, Actor(step).value);
    } else if step.Join? {
      var s' := Next(values, s, step);
      forall l | InFlight(s, l) ensures InFlight(s', l) {
        var v :| v in s.watchers && Held(s.watchers[v].phase) == l;
        assert v in s'.watchers && Held(s'.watchers[v].phase) == l;
      }
    } else {
      StoreAccounted(values, s, step, n0);
    }
  }

  lemma StoreAccounted(values: nat, s: State, step: Step, n0: nat)
    requires Safe(s) && Accounted(s, n0) && n0 > 0 && Undisturbed([step])
    requires Next(values, s, step).watchers == s.watchers
    ensures Accounted(Next(values, s, step), n0)
  {
    hide Items, Delivered, Following, ReadFrom, OnlyCreations, Held, HeldApart;
    assert [step][0] == step;
    var s' := Next(values, s, step);
    forall l ensures InFlight(s, l) <==> InFlight(s', l) {
    }
  }

  lemma {:induction false} ExecAccounted(values: nat, s: State, steps: seq<Step>, n0: nat)
    requires Safe(s) && Accounted(s, n0) && n0 > 0 && Undisturbed(steps)
    ensures Accounted(Exec(values, s, steps), n0)
    decreases |steps|
  {
    hide Next, Safe, Accounted;
    if steps != [] {
      assert Undisturbed([steps[0]]) && Undisturbed(steps[1..]);
      NextSafe(values, s, steps[0]);
      NextAccounted(values, s, steps[0], n0);
      ExecAccounted(values, Next(values, s, steps[0]), steps[1..], n0);
    }
  }

  /** In every run in which nobody else grants leases or deletes the trigger, a lease that was
      granted and still lives is in some watcher's hands or carries the trigger: winners spend
      theirs and losers give theirs back. */
  lemma NoLeaseLeaks(values: nat, s: State, steps: seq<Step>, l: nat)
    requires Init(s) && Undisturbed(steps)
    requires l in Exec(values, s, steps).store.live && l >= s.store.nextLease
    ensures var t := Exec(values, s, steps);
      InFlight(t, l) || (Trigger in t.store.kvs && t.store.kvs[Trigger].lease == l)
  {
    ExecAccounted(values, s, steps, s.store.nextLease);
  }
}
