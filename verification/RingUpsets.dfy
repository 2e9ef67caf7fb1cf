/** Runs of the ring protocol that lose the schedule, on a ring whose items never change: some by
    ensureActiveTrigger alone, which starve a member for as long as one likes, and one by a late
    handler. */
module RingUpsets {
  import opened Order
  import opened Etcd
  import opened RingSelection
  import opened RingProtocol
  import opened RingAgreement
  import opened RingSchedule
  import Circle

  // ---- Putting runs together ----

  /** The run leads from `s` to `t` and the items stay the same all along. */
  ghost predicate Reaches(values: nat, items: seq<string>, s: State, steps: seq<Step>, t: State) {
    Exec(values, s, steps) == t && Stable(values, s, steps, items)
  }

  lemma ReachesStep(values: nat, items: seq<string>, s: State, step: Step)
    requires Items(s.store) == items && Items(Next(values, s, step).store) == items
    ensures Reaches(values, items, s, [step], Next(values, s, step))
  {
    hide Next, Items;
    var t := Next(values, s, step);
    assert [step][1..] == [];
    assert Exec(values, t, []) == t && Stable(values, t, [], items);
  }

  lemma ReachesNothing(values: nat, items: seq<string>, s: State)
    requires Calm(values, items, s)
    ensures items != [] && Reaches(values, items, s, [], s)
  {
  }

  lemma {:induction false} ReachesAppend(values: nat, items: seq<string>, s: State, a: seq<Step>, t: State,
                                         b: seq<Step>, u: State)
    requires Reaches(values, items, s, a, t) && Reaches(values, items, t, b, u)
    ensures Reaches(values, items, s, a + b, u)
    decreases |a|
  {
    hide Next, Items;
    if a == [] {
      assert a + b == b;
    } else {
      assert (a + b)[0] == a[0] && (a + b)[1..] == a[1..] + b;
      ReachesAppend(values, items, Next(values, s, a[0]), a[1..], t, b, u);
    }
  }

  ghost predicate Calm(values: nat, items: seq<string>, s: State) {
    Safe(s) && items != [] && Items(s.store) == items && Agree(values, items, s)
  }

  lemma ItemsSame(st: RingStore, st': RingStore)
    requires forall k: Key :: k.Item? ==> (k in st.kvs <==> k in st'.kvs)
    ensures Items(st) == Items(st')
  {
    var a, b := set k | k in st.kvs && k.Item? :: k.name, set k | k in st'.kvs && k.Item? :: k.name;
    forall n: string ensures n in a <==> n in b {
      assert Item(n).Item? && Item(n).name == n;
    }
    assert a == b;
  }

  /** A step that leaves the item keys alone, as a run of its own. */
  lemma CalmStep(values: nat, items: seq<string>, s: State, step: Step)
    requires Calm(values, items, s)
    requires forall k: Key :: k.Item? ==> (k in s.store.kvs <==> k in Next(values, s, step).store.kvs)
    ensures Calm(values, items, Next(values, s, step)) && Reaches(values, items, s, [step], Next(values, s, step))
  {
    ItemsSame(s.store, Next(values, s, step).store);
    hide Next, Items, Safe, Agree;
    NextSafe(values, s, step);
    NextAgrees(values, items, s, step);
    ReachesStep(values, items, s, step);
  }

  // ---- The trigger comes and goes ----

  /** The trigger is there, on a live lease that nothing else is on. */
  ghost predicate Lone(st: RingStore) {
    && Trigger in st.kvs && st.kvs[Trigger].lease != NO_LEASE && st.kvs[Trigger].lease in st.live
    && forall k :: k in st.kvs && k != Trigger ==> st.kvs[k].lease != st.kvs[Trigger].lease
  }

  /** A granted lease is live and nothing is on it yet. */
  lemma GrantSteps(values: nat, items: seq<string>, s: State, w: nat) returns (t: State)
    requires Calm(values, items, s) && w in s.watchers
    requires (s.watchers[w].phase.Selected? || s.watchers[w].phase.Ensuring?)
    ensures t.store.kvs == s.store.kvs && TriggerLog(t.store) == TriggerLog(s.store)
    ensures t.store.live == s.store.live + {s.store.nextLease}
    ensures t.watchers == s.watchers[w := GrantStep(s.watchers[w], s.store.nextLease).value]
    ensures Calm(values, items, t) && Reaches(values, items, s, [GrantLease(w)], t)
    ensures s.store.nextLease > 0 && s.store.nextLease in t.store.live && s.store.nextLease !in s.store.live
    ensures forall k :: k in t.store.kvs ==> t.store.kvs[k].lease != s.store.nextLease
  {
    t := Next(values, s, GrantLease(w));
    CalmStep(values, items, s, GrantLease(w));
    hide Items, Agree;
  }

  lemma CheckSteps(values: nat, items: seq<string>, s: State, w: nat) returns (t: State)
    requires Calm(values, items, s) && w in s.watchers && s.watchers[w].phase.Idle? && Trigger !in s.store.kvs
    ensures t == s.(watchers := s.watchers[w := s.watchers[w].(phase := Ensuring(items[0]))])
    ensures Calm(values, items, t) && Reaches(values, items, s, [Check(w)], t)
  {
    t := Next(values, s, Check(w));
    CalmStep(values, items, s, Check(w));
    hide Safe, Agree, Items;
  }

  /** A winning write. */
  lemma CommitSteps(values: nat, items: seq<string>, s: State, w: nat) returns (t: State)
    requires Calm(values, items, s) && w in s.watchers && Attempt(s.watchers[w].phase, values).Some?
    requires Trigger !in s.store.kvs
    requires var l := Attempt(s.watchers[w].phase, values).value.1;
      l != NO_LEASE && l in s.store.live && forall k :: k in s.store.kvs ==> s.store.kvs[k].lease != l
    ensures Calm(values, items, t) && Reaches(values, items, s, [Commit(w)], t) && Wins(values, s, Commit(w))
    ensures t.watchers == s.watchers[w := AfterCommit(s.watchers[w], Committed, values)] && t.store.live == s.store.live
    ensures Lone(t.store) && t.store.kvs[Trigger].value == Attempt(s.watchers[w].phase, values).value.0
    ensures TriggerLog(t.store) == TriggerLog(s.store) + [Put(t.store.kvs[Trigger], None)]
    ensures forall k :: k in t.store.kvs && k != Trigger ==> k in s.store.kvs && t.store.kvs[k] == s.store.kvs[k]
    ensures t.store.kvs[Trigger].lease == Attempt(s.watchers[w].phase, values).value.1
  {
    t := Next(values, s, Commit(w));
    CalmStep(values, items, s, Commit(w));
    hide Safe, Agree, Items, Following, AfterCommit;
    assert Held(s.watchers[w].phase) == Attempt(s.watchers[w].phase, values).value.1;
  }

  /** A lease and then the winning write, with nobody in between. */
  lemma GrantAndCommit(values: nat, items: seq<string>, s: State, w: nat) returns (t: State)
    requires Calm(values, items, s) && w in s.watchers && Trigger !in s.store.kvs
    requires (s.watchers[w].phase.Selected? && s.watchers[w].phase.found != []) || s.watchers[w].phase.Ensuring?
    ensures Calm(values, items, t) && Reaches(values, items, s, [GrantLease(w)] + [Commit(w)], t) && Lone(t.store)
    ensures var x := GrantStep(s.watchers[w], s.store.nextLease).value;
      && t.watchers == s.watchers[w := AfterCommit(x, Committed, values)]
      && t.store.kvs[Trigger].value == Attempt(x.phase, values).value.0
    ensures TriggerLog(t.store) == TriggerLog(s.store) + [Put(t.store.kvs[Trigger], None)]
    ensures s.store.live <= t.store.live
    ensures forall k :: k in t.store.kvs && k != Trigger ==> k in s.store.kvs && t.store.kvs[k] == s.store.kvs[k]
    ensures t.store.kvs[Trigger].lease == s.store.nextLease
  {
    hide Calm, Reaches, Items, Next, TriggerLog, Wins, Lone, AfterCommit, Following;
    var s1 := GrantSteps(values, items, s, w);
    t := CommitSteps(values, items, s1, w);
    ReachesAppend(values, items, s, [GrantLease(w)], s1, [Commit(w)], t);
    assert t.watchers == s.watchers[w := AfterCommit(s1.watchers[w], Committed, values)];
  }

  lemma EnsurerAgain(values: nat, x: Watcher, first: string, lease: nat)
    requires x.phase.Idle?
    ensures var y := GrantStep(x.(phase := Ensuring(first)), lease);
      y.Some? && Attempt(y.value.phase, values) == Some((first, lease)) && AfterCommit(y.value, Committed, values) == x
  {
  }

  /** ensureActiveTrigger with nobody in the way puts the trigger on the first item. */
  lemma Raise(values: nat, items: seq<string>, s: State, w: nat) returns (steps: seq<Step>, t: State)
    requires Calm(values, items, s) && w in s.watchers && s.watchers[w].phase.Idle? && Trigger !in s.store.kvs
    ensures Reaches(values, items, s, steps, t) && Calm(values, items, t) && t.watchers == s.watchers
    ensures items != [] && Lone(t.store) && t.store.kvs[Trigger].value == items[0]
    ensures TriggerLog(t.store) == TriggerLog(s.store) + [Put(t.store.kvs[Trigger], None)]
  {
    hide Calm, Reaches, Items, Next, TriggerLog, Lone, AfterCommit, Attempt, GrantStep, StrictlySorted;
    ReachesNothing(values, items, s);
    var s1 := CheckSteps(values, items, s, w);
    EnsurerAgain(values, s.watchers[w], items[0], s1.store.nextLease);
    t := GrantAndCommit(values, items, s1, w);
    steps := [Check(w)] + ([GrantLease(w)] + [Commit(w)]);
    ReachesAppend(values, items, s, [Check(w)], s1, [GrantLease(w)] + [Commit(w)], t);
    assert t.watchers == s.watchers;
  }

  lemma Fall(values: nat, items: seq<string>, s: State) returns (steps: seq<Step>, t: State)
    requires Calm(values, items, s) && Lone(s.store)
    ensures Reaches(values, items, s, steps, t) && Calm(values, items, t) && t.watchers == s.watchers
    ensures Trigger !in t.store.kvs
    ensures TriggerLog(t.store) == TriggerLog(s.store) + [Delete(s.store.kvs[Trigger])]
    ensures t.store.live == s.store.live - {s.store.kvs[Trigger].lease}
  {
    var l := s.store.kvs[Trigger].lease;
    t := Next(values, s, Expire(l));
    EndLeaseLog(s.store, l, Trigger);
    CalmStep(values, items, s, Expire(l));
    steps := [Expire(l)];
  }

  lemma JoinStep(values: nat, items: seq<string>, s: State, w: nat) returns (t: State)
    requires Calm(values, items, s) && w !in s.watchers
    ensures t == s.(watchers := s.watchers[w := Watcher(|TriggerLog(s.store)|, |TriggerLog(s.store)|, Idle, [], {}, {})])
    ensures Calm(values, items, t) && Reaches(values, items, s, [Join(w)], t)
  {
    t := Next(values, s, Join(w));
    CalmStep(values, items, s, Join(w));
  }

  lemma InitIsCalm(values: nat, items: seq<string>, s: State)
    requires Init(s) && items != [] && Items(s.store) == items
    ensures Calm(values, items, s) && Trigger !in s.store.kvs
  {
    assert KeyConsistent(s.store, Trigger);
  }

  // ---- An expiry answered when the trigger is back ----

  function ReadsLeft(p: Phase): nat {
    match p
    case Idle => 3
    case Restart => 2
    case Fill(_) => 1
    case _ => 0
  }

  lemma ReadShape(values: nat, s: State, w: nat)
    requires w in s.watchers && ReadsLeft(s.watchers[w].phase) > 0 && Items(s.store) != []
    requires s.watchers[w].seen < |TriggerLog(s.store)| && TriggerLog(s.store)[s.watchers[w].seen].Delete?
    requires s.watchers[w].phase.Fill? ==> |s.watchers[w].phase.got| < values + 1
    ensures var t := Next(values, s, Read(w));
      && t.store == s.store && w in t.watchers && t.watchers == s.watchers[w := s.watchers[w].(phase := t.watchers[w].phase)]
      && ReadsLeft(t.watchers[w].phase) < ReadsLeft(s.watchers[w].phase)
      && (t.watchers[w].phase.Restart? || t.watchers[w].phase.Fill? || t.watchers[w].phase.Selected?)
      && (t.watchers[w].phase.Fill? ==> |t.watchers[w].phase.got| < values + 1)
  {
    hide Items, ReadFrom;
  }

  /** The reads that answer a deletion, with the items fixed. */
  lemma ReadSteps(values: nat, items: seq<string>, s: State, w: nat) returns (t: State)
    requires Calm(values, items, s) && w in s.watchers && ReadsLeft(s.watchers[w].phase) > 0
    requires s.watchers[w].seen < |TriggerLog(s.store)| && TriggerLog(s.store)[s.watchers[w].seen].Delete?
    requires s.watchers[w].phase.Fill? ==> |s.watchers[w].phase.got| < values + 1
    ensures Calm(values, items, t) && Reaches(values, items, s, [Read(w)], t) && t.store == s.store
    ensures w in t.watchers && t.watchers == s.watchers[w := s.watchers[w].(phase := t.watchers[w].phase)]
    ensures var p := t.watchers[w].phase;
      && ReadsLeft(p) < ReadsLeft(s.watchers[w].phase) && (p.Restart? || p.Fill? || p.Selected?)
      && (p.Fill? ==> |p.got| < values + 1)
  {
    hide Next, Safe, Agree, Items, Reaches;
    ReadShape(values, s, w);
    t := Next(values, s, Read(w));
    CalmStep(values, items, s, Read(w));
  }

  lemma {:induction false} ReadOut(values: nat, items: seq<string>, s: State, w: nat)
    returns (steps: seq<Step>, t: State)
    requires Calm(values, items, s) && w in s.watchers && ReadsLeft(s.watchers[w].phase) > 0
    requires s.watchers[w].seen < |TriggerLog(s.store)| && TriggerLog(s.store)[s.watchers[w].seen].Delete?
    requires s.watchers[w].phase.Fill? ==> |s.watchers[w].phase.got| < values + 1
    ensures Calm(values, items, t) && Reaches(values, items, s, steps, t) && t.store == s.store
    ensures w in t.watchers && t.watchers == s.watchers[w := s.watchers[w].(phase := t.watchers[w].phase)]
    ensures t.watchers[w].phase.Selected?
    decreases ReadsLeft(s.watchers[w].phase)
  {
    hide Calm, Reaches;
    var s1 := ReadSteps(values, items, s, w);
    steps, t := [Read(w)], s1;
    if !s1.watchers[w].phase.Selected? {
      var rest;
      rest, t := ReadOut(values, items, s1, w);
      ReachesAppend(values, items, s, [Read(w)], s1, rest, t);
      steps := [Read(w)] + rest;
    }
  }

  /** What was found is what the deleted trigger's value leads to. */
  lemma SelectedIsFound(values: nat, items: seq<string>, s: State, w: nat)
    requires Calm(values, items, s) && w in s.watchers && s.watchers[w].phase.Selected?
    ensures s.watchers[w].seen < |TriggerLog(s.store)| && TriggerLog(s.store)[s.watchers[w].seen].Delete?
    ensures var found := s.watchers[w].phase.found;
      found != [] && Delivered(found, values) == Window(items, TriggerLog(s.store)[s.watchers[w].seen].last.value, values)
  {
    hide NextInRing, Delivered, DeliveryAgrees, Safe, Items;
    var log, x := TriggerLog(s.store), s.watchers[w];
    assert WatcherAgrees(values, items, log, x);
    var p :| Deletes(log, x.seen, p) && PhaseAgrees(values, items, p, x.phase);
    FoundNonEmpty(items, p, values + 1);
  }

  lemma RefusedShape(values: nat, s: State, w: nat)
    requires w in s.watchers && s.watchers[w].phase.Granted? && s.watchers[w].phase.found != []
    requires Trigger in s.store.kvs
    ensures var x := s.watchers[w];
      Next(values, s, Commit(w)) == s.(watchers := s.watchers[w := x.(phase := Releasing(x.phase.found, x.phase.lease))])
  {
    hide Following, Items, Delivered;
  }

  lemma ReleaseShape(values: nat, s: State, w: nat)
    requires Safe(s) && w in s.watchers && s.watchers[w].phase.Releasing?
    ensures var t := Next(values, s, Revoke(w));
      && t.store.kvs == s.store.kvs && TriggerLog(t.store) == TriggerLog(s.store)
      && t.watchers == s.watchers[w := Deliver(s.watchers[w], s.watchers[w].phase.found, values)]
  {
    var l := s.watchers[w].phase.lease;
    EndLeaseLog(s.store, l, Trigger);
    assert Held(s.watchers[w].phase) == l;
    hide Items, Deliver, Consistent, OnlyCreations;
    assert EndLease(s.store, l).kvs == s.store.kvs;
  }

  /** A write that is refused, the lease given back, and the notification. */
  lemma GiveWay(values: nat, items: seq<string>, s: State, w: nat) returns (t: State)
    requires Calm(values, items, s) && w in s.watchers && s.watchers[w].phase.Granted?
    requires s.watchers[w].phase.found != []
    requires Trigger in s.store.kvs
    ensures Calm(values, items, t) && Reaches(values, items, s, [Commit(w)] + [Revoke(w)], t)
    ensures t.store.kvs == s.store.kvs && TriggerLog(t.store) == TriggerLog(s.store)
    ensures t.watchers == s.watchers[w := Deliver(s.watchers[w], s.watchers[w].phase.found, values)]
  {
    hide Safe, Agree, Items, Next, Reaches, Delivered;
    var x := s.watchers[w];
    RefusedShape(values, s, w);
    CalmStep(values, items, s, Commit(w));
    var s1 := Next(values, s, Commit(w));
    ReleaseShape(values, s1, w);
    CalmStep(values, items, s1, Revoke(w));
    t := Next(values, s1, Revoke(w));
    ReachesAppend(values, items, s, [Commit(w)], s1, [Revoke(w)], t);
    assert Deliver(s1.watchers[w], x.phase.found, values) == Deliver(x, x.phase.found, values);
  }

  lemma GrantAndGiveWay(values: nat, items: seq<string>, s: State, w: nat) returns (steps: seq<Step>, t: State)
    requires Calm(values, items, s) && w in s.watchers && s.watchers[w].phase.Selected?
    requires s.watchers[w].phase.found != []
    requires Trigger in s.store.kvs
    ensures Calm(values, items, t) && Reaches(values, items, s, steps, t)
    ensures t.store.kvs == s.store.kvs && TriggerLog(t.store) == TriggerLog(s.store)
    ensures t.watchers == s.watchers[w := Deliver(s.watchers[w], s.watchers[w].phase.found, values)]
  {
    hide Calm, Reaches, Delivered, TriggerLog, Next, Items;
    var s1 := GrantSteps(values, items, s, w);
    t := GiveWay(values, items, s1, w);
    steps := [GrantLease(w)] + ([Commit(w)] + [Revoke(w)]);
    ReachesAppend(values, items, s, [GrantLease(w)], s1, [Commit(w)] + [Revoke(w)], t);
    assert t.watchers == s.watchers[w := t.watchers[w]];
  }

  /** A deletion answered while the trigger is back already. */
  lemma AnswerDeletion(values: nat, items: seq<string>, s: State, w: nat) returns (steps: seq<Step>, t: State)
    requires Calm(values, items, s) && w in s.watchers && s.watchers[w].phase.Idle? && Trigger in s.store.kvs
    requires values > 0
    requires s.watchers[w].seen < |TriggerLog(s.store)| && TriggerLog(s.store)[s.watchers[w].seen].Delete?
    ensures items != [] && Calm(values, items, t) && Reaches(values, items, s, steps, t)
    ensures t.store.kvs == s.store.kvs && TriggerLog(t.store) == TriggerLog(s.store)
    ensures var x := s.watchers[w];
      t.watchers == s.watchers[w := Notifying(x, Window(items, TriggerLog(s.store)[x.seen].last.value, values))]
  {
    hide Calm, Reaches, Window, Delivered, Deliver, Notifying, TriggerLog, Next, Items, StrictlySorted;
    ReachesNothing(values, items, s);
    var a, s1 := ReadOut(values, items, s, w);
    SelectedIsFound(values, items, s1, w);
    DeliverIsNotifying(s.watchers[w], s1.watchers[w], s1.watchers[w].phase.found, values);
    var b;
    b, t := GrantAndGiveWay(values, items, s1, w);
    ReachesAppend(values, items, s, a, s1, b, t);
    steps := a + b;
  }

  function Notifying(x: Watcher, handed: seq<string>): Watcher {
    x.(seen := x.seen + 1, delivered := x.delivered + [Delivery(x.seen, handed)])
  }

  lemma DeliverIsNotifying(x: Watcher, y: Watcher, found: seq<string>, values: nat)
    requires x.phase.Idle? && y == x.(phase := y.phase) && found != [] && values > 0
    ensures Deliver(y, found, values) == Notifying(x, Delivered(found, values))
  {
  }

  lemma SkipPut(values: nat, items: seq<string>, s: State, w: nat) returns (t: State)
    requires Calm(values, items, s) && w in s.watchers && s.watchers[w].phase.Idle?
    requires s.watchers[w].seen < |TriggerLog(s.store)| && TriggerLog(s.store)[s.watchers[w].seen].Put?
    ensures Calm(values, items, t) && Reaches(values, items, s, [Read(w)], t) && t.store == s.store
    ensures t.watchers == s.watchers[w := s.watchers[w].(seen := s.watchers[w].seen + 1)]
  {
    t := Next(values, s, Read(w));
    CalmStep(values, items, s, Read(w));
    hide Safe, Agree, Items;
  }

  // ---- Reset by ensureActiveTrigger ----

  /** The notifications about the first `k` expiries of a trigger that is always on the first item. */
  function Same(items: seq<string>, values: nat, k: nat): (r: seq<Delivery>)
    requires items != []
    ensures |r| == k
    decreases k
  {
    if k == 0 then [] else Same(items, values, k - 1) + [Delivery(2 * k - 1, Window(items, items[0], values))]
  }

  lemma SameLonger(items: seq<string>, values: nat, k: nat)
    requires items != [] && k > 0
    ensures Same(items, values, k) == Same(items, values, k - 1) + [Delivery(2 * k - 1, Window(items, items[0], values))]
  {
  }

  lemma {:induction false} NeverHanded(items: seq<string>, values: nat, k: nat, x: string)
    requires items != [] && x !in Window(items, items[0], values)
    ensures Circle.Count(Handed(Same(items, values, k)), x) == 0
    decreases k
  {
    hide Window;
    if k > 0 {
      NeverHanded(items, values, k - 1, x);
      SameLonger(items, values, k);
      var front, handed := Same(items, values, k - 1), Window(items, items[0], values);
      assert Same(items, values, k)[..k - 1] == front;
      Circle.CountAppend(Handed(front), handed, x);
      NotCounted(handed, x);
    }
  }

  lemma {:induction false} NotCounted(s: seq<string>, x: string)
    requires x !in s
    ensures Circle.Count(s, x) == 0
  {
    if s != [] { NotCounted(s[..|s| - 1], x); }
  }

  lemma WindowFromFirst(items: seq<string>, values: nat, j: nat)
    requires StrictlySorted(items) && j < values <= |items|
    ensures Window(items, items[0], values)[j] == items[j]
  {
    hide Window, Start, StrictlySorted;
    StartOfItem(items, 0);
    WindowAt(items, items[0], values, j);
    Circle.DivModUnique(j, |items|, 0, j);
  }

  lemma LastIsLeftOut(items: seq<string>, values: nat)
    requires StrictlySorted(items) && values < |items|
    ensures items[|items| - 1] !in Window(items, items[0], values)
  {
    hide Window, StrictlySorted;
    forall j: nat | j < values ensures Window(items, items[0], values)[j] != items[|items| - 1] {
      WindowFromFirst(items, values, j);
      SameItemSamePlace(items, j, |items| - 1);
    }
  }

  lemma ShareOfNothing(total: nat, n: nat)
    requires 0 < n <= total
    ensures !Circle.FairShare(0, total, n)
  {
    Circle.DivModUnique(total, n, total / n, total % n);
    assert total / n > 0 && (total + n - 1) / n >= total / n;
  }

  /** After `k` rounds: the trigger is on the first item, and the watcher has kept up with it. */
  ghost predicate KeepingUp(values: nat, items: seq<string>, s: State, k: nat) {
    && items != [] && Lone(s.store) && s.store.kvs[Trigger].value == items[0]
    && s.watchers == map[0 := Watcher(0, 2 * k + 1, Idle, Same(items, values, k), {}, {})] && |TriggerLog(s.store)| == 2 * k + 1
  }

  lemma StillLone(values: nat, items: seq<string>, s: State, t: State)
    requires Lone(s.store) && t.store.kvs == s.store.kvs && Calm(values, items, t)
    ensures Lone(t.store)
  {
  }

  /** The trigger expires, ensureActiveTrigger is called and wins, and then the handler answers. */
  lemma OneRound(values: nat, items: seq<string>, s: State, k: nat) returns (steps: seq<Step>, t: State)
    requires Calm(values, items, s) && KeepingUp(values, items, s, k) && values > 0
    ensures Reaches(values, items, s, steps, t) && Calm(values, items, t) && KeepingUp(values, items, t, k + 1)
  {
    hide Calm, Reaches, Items, StrictlySorted, Same, Window, TriggerLog, Next;
    var a, s1 := Fall(values, items, s);
    var b, s2 := Raise(values, items, s1, 0);
    ReachesAppend(values, items, s, a, s1, b, s2);
    var c, s3 := AnswerDeletion(values, items, s2, 0);
    ReachesAppend(values, items, s, a + b, s2, c, s3);
    t := SkipPut(values, items, s3, 0);
    ReachesAppend(values, items, s, a + b + c, s3, [Read(0)], t);
    steps := a + b + c + [Read(0)];
    StillLone(values, items, s2, t);
    SameLonger(items, values, k + 1);
  }

  lemma FirstRise(values: nat, items: seq<string>, s: State) returns (steps: seq<Step>, t: State)
    requires Init(s) && items != [] && Items(s.store) == items
    ensures Reaches(values, items, s, steps, t) && Calm(values, items, t) && KeepingUp(values, items, t, 0)
  {
    InitIsCalm(values, items, s);
    hide Calm, Reaches, Items, StrictlySorted;
    var s1 := JoinStep(values, items, s, 0);
    var a, s2 := Raise(values, items, s1, 0);
    ReachesAppend(values, items, s, [Join(0)], s1, a, s2);
    t := SkipPut(values, items, s2, 0);
    ReachesAppend(values, items, s, [Join(0)] + a, s2, [Read(0)], t);
    steps := [Join(0)] + a + [Read(0)];
    StillLone(values, items, s2, t);
    NothingYet(values, items);
  }

  lemma NothingYet(values: nat, items: seq<string>)
    requires items != []
    ensures Same(items, values, 0) == []
  {
  }

  lemma {:induction false} Rounds(values: nat, items: seq<string>, s: State, n: nat)
    returns (steps: seq<Step>, t: State)
    requires Init(s) && items != [] && Items(s.store) == items && values > 0
    ensures Reaches(values, items, s, steps, t) && Calm(values, items, t) && KeepingUp(values, items, t, n)
  {
    hide Calm, Reaches, Items, KeepingUp, Init;
    if n == 0 {
      steps, t := FirstRise(values, items, s);
    } else {
      var a, s1 := Rounds(values, items, s, n - 1);
      var b;
      b, t := OneRound(values, items, s1, n - 1);
      ReachesAppend(values, items, s, a, s1, b, t);
      steps := a + b;
    }
  }

  /** For every ring with fixed items, every smaller number of values and every n there is a run
      with a single watcher that answers n expiries, each before the next, and never hands out the
      last item: the trigger expires, and ensureActiveTrigger, called again for a watcher that
      joins or an item that is added, gets there before the handler. */
  lemma EnsureStarves(values: nat, items: seq<string>, s: State, n: nat) returns (steps: seq<Step>)
    requires Init(s) && Items(s.store) == items && 0 < values < |items|
    ensures Stable(values, s, steps, items) && 0 in Exec(values, s, steps).watchers
    ensures var x := Exec(values, s, steps).watchers[0]; var count := Circle.Count(Handed(x.delivered), items[|items| - 1]);
      && x.lost == {} && |x.delivered| == n && Consecutive(x.delivered, 0) && count == 0
      && (n * values >= |items| ==> !Circle.FairShare(count, n * values, |items|))
  {
    hide Exec, Stable, Same, Consecutive, Handed, Circle.Count, Circle.FairShare, Window, Init, Calm, Lone, TriggerLog;
    var t;
    steps, t := Rounds(values, items, s, n);
    LastIsLeftOut(items, values);
    NeverHanded(items, values, n, items[|items| - 1]);
    if n * values >= |items| { ShareOfNothing(n * values, |items|); }
    SameConsecutive(items, values, n);
  }

  lemma {:induction false} SameConsecutive(items: seq<string>, values: nat, k: nat)
    requires items != []
    ensures Consecutive(Same(items, values, k), 0)
    decreases k
  {
    hide Window;
    if k > 0 { SameConsecutive(items, values, k - 1); }
  }

  // ---- A late handler ----

  /** A watcher that has just begun reads the first expiry and gets its lease, and no further. */
  lemma GetReady(values: nat, items: seq<string>, s: State, w: nat) returns (steps: seq<Step>, t: State)
    requires Calm(values, items, s) && w in s.watchers && s.watchers[w] == Watcher(0, 0, Idle, [], {}, {})
    requires |TriggerLog(s.store)| == 2 && TriggerLog(s.store)[0].Put? && TriggerLog(s.store)[1].Delete?
    ensures Reaches(values, items, s, steps, t) && Calm(values, items, t)
    ensures t.store.kvs == s.store.kvs && TriggerLog(t.store) == TriggerLog(s.store) && s.store.live <= t.store.live
    ensures w in t.watchers && t.watchers == s.watchers[w := t.watchers[w]] && Ready(s, t, w)
  {
    hide Calm, Reaches, TriggerLog, StrictlySorted, Items, Next;
    var s1 := SkipPut(values, items, s, w);
    var a, s2 := ReadOut(values, items, s1, w);
    SelectedIsFound(values, items, s2, w);
    t := GrantSteps(values, items, s2, w);
    ReachesAppend(values, items, s, [Read(w)], s1, a, s2);
    ReachesAppend(values, items, s, [Read(w)] + a, s2, [GrantLease(w)], t);
    steps := [Read(w)] + a + [GrantLease(w)];
    assert t.watchers == s.watchers[w := t.watchers[w]];
  }

  ghost predicate Ready(s: State, t: State, w: nat)
    requires w in t.watchers
  {
    var x := t.watchers[w];
    && x.phase.Granted? && x.seen == 1 && x.phase.found != []
    && x.phase.lease in t.store.live && x.phase.lease !in s.store.live && x.phase.lease != NO_LEASE
  }

  lemma HeldIsFree(values: nat, items: seq<string>, s: State, w: nat)
    requires Calm(values, items, s) && w in s.watchers && s.watchers[w].phase.Granted?
    requires s.watchers[w].phase.lease != NO_LEASE
    ensures forall k :: k in s.store.kvs ==> s.store.kvs[k].lease != s.watchers[w].phase.lease
  {
    assert Held(s.watchers[w].phase) == s.watchers[w].phase.lease;
  }

  /** What the two handlers of the first expiry want to write, however late they are. */
  lemma SecondTrigger(values: nat, items: seq<string>, s: State, w: nat)
    requires Calm(values, items, s) && Fitting(values, items) && OnSchedule(values, items, TriggerLog(s.store))
    requires w in s.watchers && s.watchers[w].phase.Granted? && s.watchers[w].seen == 1
    requires s.watchers[w].phase.found != []
    ensures Attempt(s.watchers[w].phase, values).Some?
    ensures Attempt(s.watchers[w].phase, values).value.0 == items[Place(1, values, |items|)]
  {
    assert KeyConsistent(s.store, Trigger);
    assert WatcherAgrees(values, items, TriggerLog(s.store), s.watchers[w]);
    hide Safe, Agree, Items, Following, Place, OnSchedule, WatcherAgrees, Chained;
    HandlerValue(values, items, TriggerLog(s.store), s.watchers[w]);
  }

  lemma FirstRound(values: nat, items: seq<string>, log: seq<Event<string>>)
    requires items != [] && |log| == 2 && log[0].Put? && log[0].entry.value == items[0] && log[1].Delete?
    ensures OnSchedule(values, items, log)
  {
    FirstOnSchedule(values, items);
    forall k: nat | 2 * k < |log| ensures Scheduled(values, items, log, k) {
      assert k == 0;
    }
  }

  lemma SecondRound(values: nat, items: seq<string>, log: seq<Event<string>>, e: Entry<string>)
    requires OnSchedule(values, items, log) && |log| == 2 && e.value == items[Place(1, values, |items|)]
    ensures OnSchedule(values, items, log + [Put(e, None)] + [Delete(e)])
  {
    hide Place;
    PutOnSchedule(values, items, log, Put(e, None), 1);
    ScheduleAfterDelete(values, items, log + [Put(e, None)], log + [Put(e, None)] + [Delete(e)]);
  }

  lemma ThirdIsWrong(values: nat, items: seq<string>, log: seq<Event<string>>, e: Entry<string>)
    requires StrictlySorted(items) && OnSchedule(values, items, log) && |log| == 4
    requires values % |items| != 0 && e.value == items[Place(1, values, |items|)]
    ensures !OnSchedule(values, items, log + [Put(e, None)])
  {
    hide Place, OnSchedule, StrictlySorted;
    PutOnSchedule(values, items, log, Put(e, None), 2);
    LatePlace(values, items, 1, 1);
  }

  /** Two watchers that have seen the first trigger come and go. */
  lemma TwoWatchers(values: nat, items: seq<string>, s: State) returns (steps: seq<Step>, t: State)
    requires Init(s) && items != [] && Items(s.store) == items
    ensures Reaches(values, items, s, steps, t) && Calm(values, items, t) && Trigger !in t.store.kvs
    ensures t.watchers == map[0 := Watcher(0, 0, Idle, [], {}, {}), 1 := Watcher(0, 0, Idle, [], {}, {})]
    ensures OnSchedule(values, items, TriggerLog(t.store)) && |TriggerLog(t.store)| == 2
    ensures TriggerLog(t.store)[0].Put? && TriggerLog(t.store)[1].Delete?
  {
    InitIsCalm(values, items, s);
    hide Calm, Reaches, Items, StrictlySorted, OnSchedule;
    var s1 := JoinStep(values, items, s, 0);
    var s2 := JoinStep(values, items, s1, 1);
    ReachesAppend(values, items, s, [Join(0)], s1, [Join(1)], s2);
    var a, s3 := Raise(values, items, s2, 0);
    ReachesAppend(values, items, s, [Join(0)] + [Join(1)], s2, a, s3);
    var b;
    b, t := Fall(values, items, s3);
    ReachesAppend(values, items, s, [Join(0)] + [Join(1)] + a, s3, b, t);
    steps := [Join(0)] + [Join(1)] + a + b;
    FirstRound(values, items, TriggerLog(t.store));
  }

  /** One of them wins, on schedule, and that trigger expires too; the other has its lease. */
  lemma OneAhead(values: nat, items: seq<string>, s: State) returns (steps: seq<Step>, t: State)
    requires Calm(values, items, s) && Fitting(values, items) && Trigger !in s.store.kvs
    requires s.watchers == map[0 := Watcher(0, 0, Idle, [], {}, {}), 1 := Watcher(0, 0, Idle, [], {}, {})]
    requires OnSchedule(values, items, TriggerLog(s.store)) && |TriggerLog(s.store)| == 2
    requires TriggerLog(s.store)[0].Put? && TriggerLog(s.store)[1].Delete?
    ensures Reaches(values, items, s, steps, t) && Calm(values, items, t) && Trigger !in t.store.kvs
    ensures OnSchedule(values, items, TriggerLog(t.store)) && |TriggerLog(t.store)| == 4
    ensures 1 in t.watchers && Ready(s, t, 1)
  {
    hide Calm, Reaches, Items, StrictlySorted, OnSchedule, Next, Place, TriggerLog, Attempt, AfterCommit;
    var a, s1 := GetReady(values, items, s, 1);
    var b, s2 := GetReady(values, items, s1, 0);
    ReachesAppend(values, items, s, a, s1, b, s2);
    SecondTrigger(values, items, s2, 0);
    HeldIsFree(values, items, s2, 0);
    AttemptLease(values, s2.watchers[0].phase);
    var s3 := CommitSteps(values, items, s2, 0);
    ReachesAppend(values, items, s, a + b, s2, [Commit(0)], s3);
    var c;
    c, t := Fall(values, items, s3);
    ReachesAppend(values, items, s, a + b + [Commit(0)], s3, c, t);
    steps := a + b + [Commit(0)] + c;
    SecondRound(values, items, TriggerLog(s.store), s3.store.kvs[Trigger]);
  }

  lemma AttemptLease(values: nat, p: Phase)
    requires p.Granted? && p.found != []
    ensures Attempt(p, values).Some? && Attempt(p, values).value.1 == p.lease
  {
  }

  /** For every ring with fixed items and every number of values that fits and is not whole
      rounds there is a run with two watchers that is on schedule until, one expiry late, a
      handler wins and puts the ring back by a window. */
  lemma LateHandlerUpsets(values: nat, items: seq<string>, s: State) returns (steps: seq<Step>, last: Step)
    requires Init(s) && Items(s.store) == items && Fitting(values, items) && values % |items| != 0
    ensures Stable(values, s, steps + [last], items)
    ensures var t := Exec(values, s, steps);
      && OnSchedule(values, items, TriggerLog(t.store)) && last.Commit? && last.w in t.watchers
      && t.watchers[last.w].phase.Granted? && Wins(values, t, last)
      && !OnSchedule(values, items, TriggerLog(Exec(values, s, steps + [last]).store))
  {
    hide Calm, Items, StrictlySorted, OnSchedule, Next, Place, Attempt, AfterCommit, Exec, Stable, Wins;
    var a, s1 := TwoWatchers(values, items, s);
    var b, s2 := OneAhead(values, items, s1);
    ReachesAppend(values, items, s, a, s1, b, s2);
    SecondTrigger(values, items, s2, 1);
    HeldIsFree(values, items, s2, 1);
    AttemptLease(values, s2.watchers[1].phase);
    var t := CommitSteps(values, items, s2, 1);
    ReachesAppend(values, items, s, a + b, s2, [Commit(1)], t);
    steps, last := a + b, Commit(1);
    ThirdIsWrong(values, items, TriggerLog(s2.store), t.store.kvs[Trigger]);
  }
}
