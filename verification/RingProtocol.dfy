/** The trigger of a round-robin ring, raced for by any number of watchers. A trigger is a
    leased key; when it goes away every watcher reads the ring, grants a lease, tries to
    recreate the trigger and hands out the items it read. Each call to the store is one step,
    and steps of different watchers, lease expiries and other clients interleave freely. */
module RingProtocol {
  import opened Order
  import opened Etcd
  import opened RingSelection

  // ---- State ----

  datatype Key = Trigger | Item(name: string) | Other(id: nat)

  type RingStore = Store<Key, string>

  function Items(st: RingStore): (r: seq<string>)
    ensures StrictlySorted(r)
    ensures forall x :: x in r <==> Item(x) in st.kvs
  {
    Sorted(set k | k in st.kvs && k.Item? :: k.name)
  }

  function TriggerLog(st: RingStore): seq<Event<string>> { Log(st, Trigger) }

  /** Where a watcher is. `Restart` to `Releasing` and `Failing` belong to the deletion at
      position `seen` of the trigger's log; the `Ensure` phases to ensureActiveTrigger. */
  datatype Phase =
    | Idle
    | Restart
    | Fill(got: seq<string>)
    | Selected(found: seq<string>)
    | Granted(found: seq<string>, lease: nat)
    | Releasing(found: seq<string>, lease: nat)
    | Failing(lease: nat)
    | Ensuring(first: string)
    | EnsureGranted(first: string, lease: nat)
    | EnsureReleasing(lease: nat)

  /** A trigger notification: which deletion it answers and the values it carries. */
  datatype Delivery = Delivery(event: nat, values: seq<string>)

  /** Where its watch began, how many events it is done with, its notifications, and the
      events it did not notify about: `lost` because its lease ended before its write, and
      `idle` because its reads found the ring empty. */
  datatype Watcher = Watcher(start: nat, seen: nat, phase: Phase, delivered: seq<Delivery>, lost: set<nat>, idle: set<nat>)

  datatype State = State(store: RingStore, watchers: map<nat, Watcher>)

  /** The lease a watcher has been granted and not yet put to use or given back. */
  function Held(p: Phase): nat {
    match p
    case Granted(_, l) => l
    case Releasing(_, l) => l
    case Failing(l) => l
    case EnsureGranted(_, l) => l
    case EnsureReleasing(l) => l
    case _ => NO_LEASE
  }

  // ---- Steps ----

  datatype Step =
    | Join(w: nat)
    | Read(w: nat)
    | Check(w: nat)
    | GrantLease(w: nat)
    | Commit(w: nat)
    | Revoke(w: nat)
    | Expire(lease: nat)
    | OtherPut(key: Key, value: string, lease: nat)
    | OtherDelete(key: Key)
    | OtherGrant

  function Handled(w: Watcher): Watcher { w.(seen := w.seen + 1, phase := Idle) }

  /** Notify with the items found for the current event; an empty notification is not sent. */
  function Deliver(w: Watcher, found: seq<string>, values: nat): Watcher {
    if found == [] || values == 0 then Handled(w)
    else Handled(w).(delivered := w.delivered + [Delivery(w.seen, Delivered(found, values))])
  }

  function Got(w: Watcher, got: seq<string>, n: nat): Watcher
  {
    w.(phase := if |got| < n then Fill(got) else Selected(got))
  }

  /** One read of nextInRing, whichever is due. */
  function ReadStep(w: Watcher, log: seq<Event<string>>, items: seq<string>, values: nat): Watcher {
    var n := values + 1;
    match w.phase
    case Idle =>
      if w.seen >= |log| then w
      else if log[w.seen].Put? then Handled(w)
      else
        var got := ReadFrom(items, log[w.seen].last.value, n);
        if got == [] then w.(phase := Restart) else Got(w, got, n)
    case Restart =>
      var got := Take(items, n);
      if got == [] then Handled(w).(idle := w.idle + {w.seen}) else Got(w, got, n)
    case Fill(got) =>
      if |got| < n then w.(phase := Selected(got + Take(items, n - |got|))) else w
    case _ => w
  }

  /** hasTrigger: remember the first item when the ring has items and no active trigger. */
  function CheckStep(w: Watcher, st: RingStore): Watcher {
    if w.phase.Idle? && (Trigger !in st.kvs || st.kvs[Trigger].value == "") && Items(st) != []
    then w.(phase := Ensuring(Items(st)[0])) else w
  }

  function GrantStep(w: Watcher, lease: nat): Option<Watcher> {
    match w.phase
    case Selected(found) => Some(w.(phase := Granted(found, lease)))
    case Ensuring(first) => Some(w.(phase := EnsureGranted(first, lease)))
    case _ => None
  }

  /** The value and lease of the trigger write that is due, if any. */
  function Attempt(p: Phase, values: nat): Option<(string, nat)> {
    match p
    case Granted(found, l) => if found == [] then None else Some((Following(found, values), l))
    case EnsureGranted(first, l) => Some((first, l))
    case _ => None
  }

  function AfterCommit(w: Watcher, outcome: Outcome, values: nat): Watcher {
    match w.phase
    case Granted(found, l) =>
      (match outcome
       case Committed => Deliver(w, found, values)
       case Refused => w.(phase := Releasing(found, l))
       case LeaseGone => w.(phase := Failing(l)))
    case EnsureGranted(_, l) =>
      w.(phase := if outcome.Refused? then EnsureReleasing(l) else Idle)
    case _ => w
  }

  function AfterRevoke(w: Watcher, values: nat): Watcher {
    match w.phase
    case Releasing(found, _) => Deliver(w, found, values)
    case Failing(_) => Handled(w).(lost := w.lost + {w.seen})
    case EnsureReleasing(_) => w.(phase := Idle)
    case _ => w
  }

  predicate Revoking(p: Phase) { p.Releasing? || p.Failing? || p.EnsureReleasing? }

  /** A step that is not possible changes nothing, so every list of steps is a run. */
  function Next(values: nat, s: State, step: Step): State {
    var st := s.store;
    match step
    case Join(w) =>
      if w in s.watchers then s
      else s.(watchers := s.watchers[w := Watcher(|TriggerLog(st)|, |TriggerLog(st)|, Idle, [], {}, {})])
    case Read(w) =>
      if w !in s.watchers then s
      else s.(watchers := s.watchers[w := ReadStep(s.watchers[w], TriggerLog(st), Items(st), values)])
    case Check(w) =>
      if w !in s.watchers then s
      else s.(watchers := s.watchers[w := CheckStep(s.watchers[w], st)])
    case GrantLease(w) =>
      if w !in s.watchers || GrantStep(s.watchers[w], st.nextLease).None? then s
      else State(Grant(st), s.watchers[w := GrantStep(s.watchers[w], st.nextLease).value])
    case Commit(w) =>
      if w !in s.watchers || Attempt(s.watchers[w].phase, values).None? then s
      else
        var (value, lease) := Attempt(s.watchers[w].phase, values).value;
        State(Create(st, Trigger, value, lease),
              s.watchers[w := AfterCommit(s.watchers[w], CreateOutcome(st, Trigger, lease), values)])
    case Revoke(w) =>
      if w !in s.watchers || !Revoking(s.watchers[w].phase) then s
      else State(EndLease(st, Held(s.watchers[w].phase)), s.watchers[w := AfterRevoke(s.watchers[w], values)])
    case Expire(lease) => s.(store := EndLease(st, lease))
    case OtherPut(key, value, lease) =>
      if key.Trigger? || (lease != NO_LEASE && (lease !in st.live || InFlight(s, lease))) then s
      else s.(store := PutKey(st, key, value, lease))
    case OtherDelete(key) => s.(store := DeleteKey(st, key))
    case OtherGrant => s.(store := Grant(st))
  }

  predicate InFlight(s: State, lease: nat) {
    exists w :: w in s.watchers && Held(s.watchers[w].phase) == lease
  }

  function Exec(values: nat, s: State, steps: seq<Step>): State
    decreases |steps|
  {
    if steps == [] then s else Exec(values, Next(values, s, steps[0]), steps[1..])
  }

  /** Any items and other keys, no trigger yet, nobody watching yet. */
  ghost predicate Init(s: State) {
    Consistent(s.store) && TriggerLog(s.store) == [] && s.watchers == map[]
  }

  // ---- One trigger at a time, and losers do no harm ----

  /** A held lease was granted to one watcher only and no key is attached to it. */
  ghost predicate HeldApart(s: State) {
    && (forall w :: w in s.watchers ==> Held(s.watchers[w].phase) < s.store.nextLease)
    && (forall w, k :: w in s.watchers && k in s.store.kvs && Held(s.watchers[w].phase) != NO_LEASE ==>
          s.store.kvs[k].lease != Held(s.watchers[w].phase))
    && (forall v, w :: v in s.watchers && w in s.watchers && v != w && Held(s.watchers[v].phase) != NO_LEASE ==>
          Held(s.watchers[v].phase) != Held(s.watchers[w].phase))
  }

  ghost predicate OnlyCreations(h: seq<Event<string>>) {
    forall i :: 0 <= i < |h| && h[i].Put? ==> h[i].prev.None?
  }

  ghost predicate Safe(s: State) {
    Consistent(s.store) && OnlyCreations(TriggerLog(s.store)) && HeldApart(s)
  }

  /** Steps that leave the watchers alone and put no key on a held lease. */
  lemma StoreStepSafe(s: State, st: RingStore)
    requires Safe(s) && Consistent(st) && st.nextLease >= s.store.nextLease
    requires OnlyCreations(TriggerLog(st))
    requires forall k :: k in st.kvs ==>
      ((k in s.store.kvs && st.kvs[k].lease == s.store.kvs[k].lease)
       || st.kvs[k].lease == NO_LEASE || !InFlight(s, st.kvs[k].lease))
    ensures Safe(s.(store := st))
  {
  }

  /** Steps that change one watcher, which acquires no lease. */
  lemma WatcherStepSafe(s: State, w: nat, x: Watcher)
    requires Safe(s)
    requires Held(x.phase) == NO_LEASE || (w in s.watchers && Held(x.phase) == Held(s.watchers[w].phase))
    ensures Safe(s.(watchers := s.watchers[w := x]))
  {
  }

  lemma GrantSafe(values: nat, s: State, w: nat)
    requires Safe(s)
    ensures Safe(Next(values, s, GrantLease(w)))
  {
    GrantKeepsConsistent(s.store);
  }

  lemma OtherPutSafe(values: nat, s: State, key: Key, value: string, lease: nat)
    requires Safe(s)
    ensures Safe(Next(values, s, OtherPut(key, value, lease)))
  {
    if Next(values, s, OtherPut(key, value, lease)) != s {
      PutKeepsConsistent(s.store, key, value, lease);
      StoreStepSafe(s, PutKey(s.store, key, value, lease));
    }
  }

  lemma NextSafe(values: nat, s: State, step: Step)
    requires Safe(s)
    ensures Safe(Next(values, s, step))
  {
    hide Consistent, OnlyCreations, HeldApart, ReadStep, CheckStep, Held, InFlight;
    var st := s.store;
    match step
    case Join(w) => IdleHoldsNothing(); WatcherStepSafe(s, w, Watcher(|TriggerLog(st)|, |TriggerLog(st)|, Idle, [], {}, {}));
    case Read(w) =>
      if w in s.watchers {
        ReadHolds(s.watchers[w], TriggerLog(st), Items(st), values);
        WatcherStepSafe(s, w, ReadStep(s.watchers[w], TriggerLog(st), Items(st), values));
      }
    case Check(w) =>
      if w in s.watchers {
        CheckHolds(s.watchers[w], st);
        WatcherStepSafe(s, w, CheckStep(s.watchers[w], st));
      }
    case GrantLease(w) => GrantSafe(values, s, w);
    case Commit(w) =>
      if w in s.watchers && Attempt(s.watchers[w].phase, values).Some? { CommitSafe(values, s, w); }
    case Revoke(w) =>
      if w in s.watchers && Revoking(s.watchers[w].phase) { RevokeSafe(values, s, w); }
    case Expire(lease) => ExpireSafe(s, lease);
    case OtherPut(key, value, lease) => OtherPutSafe(values, s, key, value, lease);
    case OtherDelete(key) => DeleteSafe(s, key);
    case OtherGrant => OtherGrantSafe(s);
  }

  lemma ExpireSafe(s: State, lease: nat)
    requires Safe(s)
    ensures Safe(s.(store := EndLease(s.store, lease)))
  {
    EndLeaseKeepsConsistent(s.store, lease);
    EndLeaseLog(s.store, lease, Trigger);
    StoreStepSafe(s, EndLease(s.store, lease));
  }

  lemma DeleteSafe(s: State, key: Key)
    requires Safe(s)
    ensures Safe(s.(store := DeleteKey(s.store, key)))
  {
    DeleteKeepsConsistent(s.store, key);
    StoreStepSafe(s, DeleteKey(s.store, key));
  }

  lemma OtherGrantSafe(s: State)
    requires Safe(s)
    ensures Safe(s.(store := Grant(s.store)))
  {
    GrantKeepsConsistent(s.store);
  }

  lemma IdleHoldsNothing()
    ensures Held(Idle) == NO_LEASE
  {
  }

  lemma CheckHolds(w: Watcher, st: RingStore)
    ensures Held(CheckStep(w, st).phase) in {Held(w.phase), NO_LEASE}
  {
  }

  lemma ReadHolds(w: Watcher, log: seq<Event<string>>, items: seq<string>, values: nat)
    ensures Held(ReadStep(w, log, items, values).phase) in {Held(w.phase), NO_LEASE}
  {
  }

  lemma CommitSafe(values: nat, s: State, w: nat)
    requires Safe(s) && w in s.watchers && Attempt(s.watchers[w].phase, values).Some?
    ensures Safe(Next(values, s, Commit(w)))
  {
    var (value, lease) := Attempt(s.watchers[w].phase, values).value;
    CreateKeepsConsistent(s.store, Trigger, value, lease);
  }

  lemma RevokeSafe(values: nat, s: State, w: nat)
    requires Safe(s) && w in s.watchers && Revoking(s.watchers[w].phase)
    ensures Safe(Next(values, s, Revoke(w)))
  {
    var l := Held(s.watchers[w].phase);
    EndLeaseKeepsConsistent(s.store, l);
    EndLeaseLog(s.store, l, Trigger);
  }

  lemma {:induction false} ExecSafe(values: nat, s: State, steps: seq<Step>)
    requires Safe(s)
    ensures Safe(Exec(values, s, steps))
    decreases |steps|
  {
    if steps != [] {
      NextSafe(values, s, steps[0]);
      ExecSafe(values, Next(values, s, steps[0]), steps[1..]);
    }
  }

  /** In every run, whoever wrote them, two trigger writes have a trigger deletion between them. */
  lemma TriggerWritesSeparated(values: nat, s: State, steps: seq<Step>, i: nat, j: nat)
    requires Init(s)
    requires i < j < |TriggerLog(Exec(values, s, steps).store)|
    requires TriggerLog(Exec(values, s, steps).store)[i].Put?
    requires TriggerLog(Exec(values, s, steps).store)[j].Put?
    ensures exists d :: i < d < j && TriggerLog(Exec(values, s, steps).store)[d].Delete?
  {
    ExecSafe(values, s, steps);
    var st := Exec(values, s, steps).store;
    assert KeyConsistent(st, Trigger);
    CreationsSeparated(TriggerLog(st), i, j);
  }

  /** A watcher that lost the race and gives its lease back removes nothing, in particular
      not the winner's trigger. */
  lemma LoserRemovesNothing(values: nat, s: State, steps: seq<Step>, w: nat)
    requires Init(s)
    ensures var before := Exec(values, s, steps).store; var after := Next(values, Exec(values, s, steps), Revoke(w)).store;
      after.kvs == before.kvs && after.history == before.history
  {
    ExecSafe(values, s, steps);
    var t := Exec(values, s, steps);
    if w in t.watchers && Revoking(t.watchers[w].phase) {
      var l := Held(t.watchers[w].phase);
      assert EndLease(t.store, l).kvs == t.store.kvs;
      assert EndLease(t.store, l).history == t.store.history;
    }
  }

  // ---- Full notifications ----

  ghost predicate Full(values: nat, w: Watcher) {
    forall d :: d in w.delivered ==> |d.values| == values
  }

  lemma WatcherStepsFull(values: nat, w: Watcher, log: seq<Event<string>>, st: RingStore, lease: nat, outcome: Outcome)
    requires Full(values, w)
    ensures Full(values, ReadStep(w, log, Items(st), values)) && Full(values, CheckStep(w, st))
    ensures GrantStep(w, lease).Some? ==> Full(values, GrantStep(w, lease).value)
    ensures Attempt(w.phase, values).Some? ==> Full(values, AfterCommit(w, outcome, values))
    ensures Full(values, AfterRevoke(w, values))
  {
  }

  lemma {:induction false} ExecFull(values: nat, s: State, steps: seq<Step>)
    requires forall w :: w in s.watchers ==> Full(values, s.watchers[w])
    ensures forall w :: w in Exec(values, s, steps).watchers ==> Full(values, Exec(values, s, steps).watchers[w])
    decreases |steps|
  {
    if steps != [] {
      var t := Next(values, s, steps[0]);
      forall w | w in t.watchers ensures Full(values, t.watchers[w]) {
        if w in s.watchers {
          var outcome := match Attempt(s.watchers[w].phase, values)
            case Some(a) => CreateOutcome(s.store, Trigger, a.1)
            case None => Committed;
          WatcherStepsFull(values, s.watchers[w], TriggerLog(s.store), s.store, s.store.nextLease, outcome);
        }
      }
      ExecFull(values, t, steps[1..]);
    }
  }

  /** In every run, however the ring changes meanwhile, every trigger notification carries
      exactly as many items as were asked for. */
  lemma NotificationsAreFull(values: nat, s: State, steps: seq<Step>, w: nat, d: Delivery)
    requires Init(s) && w in Exec(values, s, steps).watchers && d in Exec(values, s, steps).watchers[w].delivered
    ensures |d.values| == values
  {
    ExecFull(values, s, steps);
  }
}
