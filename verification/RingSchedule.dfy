/** The schedule of a ring with fixed items: the trigger moves on by one window per expiry, and
    with that everybody gets a fair share. Which trigger writes keep it, exactly. */
module RingSchedule {
  import opened Order
  import opened Etcd
  import opened RingSelection
  import opened RingProtocol
  import opened RingAgreement
  import Circle

  // ---- The schedule ----

  /** With this many values a trigger that starts on the first item walks the ring in order. */
  predicate Fitting(values: nat, items: seq<string>) {
    items != [] && (values <= |items| || values % |items| == 0)
  }

  /** The trigger's log alternates writes and deletions, and the k-th trigger is the item
      k times `values` places round the ring. */
  ghost predicate OnSchedule(values: nat, items: seq<string>, log: seq<Event<string>>) {
    && items != []
    && (forall k: nat :: 2 * k < |log| ==> Scheduled(values, items, log, k))
    && (forall k: nat :: 2 * k + 1 < |log| ==> log[2 * k + 1].Delete?)
  }

  /** The place of the k-th trigger on a circle of `n`. */
  function Place(k: nat, values: nat, n: nat): (r: nat)
    requires n > 0
    ensures r < n
  {
    Circle.Wrap(Circle.Times(k, values), n)
  }

  ghost predicate Scheduled(values: nat, items: seq<string>, log: seq<Event<string>>, k: nat)
    requires items != [] && 2 * k < |log|
  {
    log[2 * k].Put? && log[2 * k].entry.value == items[Place(k, values, |items|)]
  }

  /** What a step can append to the trigger's log. */
  lemma LogStep(values: nat, s: State, step: Step)
    requires Safe(s)
    ensures var log, log' := TriggerLog(s.store), TriggerLog(Next(values, s, step).store);
      || log' == log
      || (|log'| == |log| + 1 && log <= log' && log'[|log|].Delete? && log != [] && log[|log| - 1].Put?)
      || (|log'| == |log| + 1 && log <= log' && log'[|log|].Put? && Wins(values, s, step)
          && log'[|log|].entry.value == Attempt(s.watchers[step.w].phase, values).value.0)
  {
    assert KeyConsistent(s.store, Trigger);
    match step
    case Expire(lease) => EndLeaseLog(s.store, lease, Trigger);
    case Revoke(w) =>
      if w in s.watchers { EndLeaseLog(s.store, Held(s.watchers[w].phase), Trigger); }
    case _ =>
  }

  ghost predicate Wins(values: nat, s: State, step: Step) {
    && step.Commit? && step.w in s.watchers && Attempt(s.watchers[step.w].phase, values).Some?
    && CreateOutcome(s.store, Trigger, Held(s.watchers[step.w].phase)).Committed?
  }

  lemma WritesAreEven(values: nat, items: seq<string>, log: seq<Event<string>>, i: nat)
    requires OnSchedule(values, items, log) && i < |log|
    ensures log[i].Put? <==> i % 2 == 0
  {
    if i % 2 == 0 {
      assert Scheduled(values, items, log, i / 2);
    } else {
      assert log[2 * (i / 2) + 1].Delete?;
    }
  }

  lemma ScheduleAfterDelete(values: nat, items: seq<string>, log: seq<Event<string>>, log': seq<Event<string>>)
    requires OnSchedule(values, items, log) && |log'| == |log| + 1 && log <= log'
    requires log != [] && log[|log| - 1].Put? && log'[|log|].Delete?
    ensures OnSchedule(values, items, log')
  {
    WritesAreEven(values, items, log, |log| - 1);
    forall k: nat | 2 * k < |log'| ensures Scheduled(values, items, log', k) {
      assert Scheduled(values, items, log, k);
    }
  }

  lemma ScheduleAfterPut(values: nat, items: seq<string>, log: seq<Event<string>>, log': seq<Event<string>>, k: nat)
    requires OnSchedule(values, items, log) && |log'| == |log| + 1 && log <= log'
    requires |log| == 2 * k && Scheduled(values, items, log', k)
    ensures OnSchedule(values, items, log')
  {
    forall i: nat | 2 * i < |log'| ensures Scheduled(values, items, log', i) {
      if i != k { assert Scheduled(values, items, log, i); }
    }
  }

  lemma PlaceSum(k: nat, m: nat, values: nat, n: nat)
    requires n > 0
    ensures Circle.Wrap(Place(k, values, n) + Circle.Times(m, values), n) == Place(k + m, values, n)
  {
    Circle.TimesSum(k, m, values);
    Circle.WrapSum(Circle.Times(k, values), Circle.Times(m, values), n);
  }

  /** Whole rounds leave every trigger on the first item. */
  lemma WholeRoundsStay(values: nat, items: seq<string>, k: nat)
    requires items != [] && values % |items| == 0
    ensures Circle.Wrap(values, |items|) == 0 && Place(k, values, |items|) == 0
  {
    hide Circle.Wrap, Circle.Times;
    var N := |items|;
    Circle.WrapIsMod(values, N);
    Circle.TimesIsProduct(k, values);
    Circle.WrapIsMod(k * values, N);
    MultipleOfRounds(k, values, N);
  }

  lemma MultipleOfRounds(k: nat, values: nat, n: nat)
    requires n > 0 && values % n == 0
    ensures (k * values) % n == 0
  {
    var q := values / n;
    assert values == q * n;
    assert k * values == (k * q) * n;
    Circle.DivModUnique(k * values, n, k * q, 0);
  }

  /** The item `values` places after the k-th trigger is the next one on the schedule. */
  lemma ScheduleStep(values: nat, items: seq<string>, k: nat)
    requires StrictlySorted(items) && Fitting(values, items)
    ensures Follow(items, items[Place(k, values, |items|)], values) == items[Place(k + 1, values, |items|)]
  {
    hide StrictlySorted, Follow, Start, Circle.Wrap, Place;
    var N := |items|;
    var i := Place(k, values, N);
    StartOfItem(items, i);
    FollowOnCircle(items, items[i], values);
    if values > N { WholeRoundsStay(values, items, k); }
    Circle.FollowExact(i, values, N);
    PlaceSum(k, 1, values, N);
    assert Circle.Times(1, values) == values;
  }

  lemma FirstOnSchedule(values: nat, items: seq<string>)
    requires items != []
    ensures Place(0, values, |items|) == 0
  {
  }

  lemma PutOnSchedule(values: nat, items: seq<string>, log: seq<Event<string>>, e: Event<string>, k: nat)
    requires OnSchedule(values, items, log) && |log| == 2 * k && e.Put?
    ensures OnSchedule(values, items, log + [e]) <==> e.entry.value == items[Place(k, values, |items|)]
  {
    hide Place;
    if e.entry.value == items[Place(k, values, |items|)] {
      ScheduleAfterPut(values, items, log, log + [e], k);
    }
    if OnSchedule(values, items, log + [e]) {
      assert Scheduled(values, items, log + [e], k);
    }
  }

  lemma SameItemSamePlace(items: seq<string>, i: nat, j: nat)
    requires StrictlySorted(items) && i < |items| && j < |items|
    ensures items[i] == items[j] <==> i == j
  {
    SortedDistinct(items);
  }

  lemma {:induction false} WrapBack(x: nat, t: nat, n: nat)
    requires x < n
    ensures Circle.Wrap(x + t, n) == x <==> Circle.Wrap(t, n) == 0
  {
    Circle.WrapSum(t, x, n);
    Circle.WrapSmall(Circle.Wrap(t, n) + x, n);
  }

  /** Being off by `late` windows shows, unless they add up to whole rounds. */
  lemma LatePlace(values: nat, items: seq<string>, k: nat, late: nat)
    requires StrictlySorted(items) && items != []
    ensures items[Place(k, values, |items|)] == items[Place(k + late, values, |items|)] <==> (late * values) % |items| == 0
  {
    hide StrictlySorted, Place, Circle.Times, Circle.Wrap;
    var N := |items|;
    SameItemSamePlace(items, Place(k, values, N), Place(k + late, values, N));
    PlaceSum(k, late, values, N);
    WrapBack(Place(k, values, N), Circle.Times(late, values), N);
    Circle.TimesIsProduct(late, values);
    Circle.WrapIsMod(Circle.Times(late, values), N);
  }

  // ---- Which steps keep it ----

  /** How many windows the write of a winner is behind: a handler is late by the expiries since
      the one it answers, and ensureActiveTrigger, which starts from the first item, by all. */
  function Behind(n: nat, x: Watcher): nat {
    if x.phase.Granted? then (if x.seen < n then (n - 1 - x.seen) / 2 else 0) else n / 2
  }

  /** The step writes no trigger, or the windows its write is behind add up to whole rounds. */
  ghost predicate Harmless(values: nat, items: seq<string>, s: State, step: Step)
    requires items != []
  {
    Wins(values, s, step) ==> (Behind(|TriggerLog(s.store)|, s.watchers[step.w]) * values) % |items| == 0
  }

  ghost predicate HarmlessRun(values: nat, items: seq<string>, s: State, steps: seq<Step>)
    requires items != []
    decreases |steps|
  {
    steps == [] || (Harmless(values, items, s, steps[0]) && HarmlessRun(values, items, Next(values, s, steps[0]), steps[1..]))
  }

  /** What a handler that answers deletion number `k` of a log on schedule wants to write. */
  lemma HandlerValue(values: nat, items: seq<string>, log: seq<Event<string>>, w: Watcher)
    requires StrictlySorted(items) && Fitting(values, items) && Chained(log)
    requires OnSchedule(values, items, log) && WatcherAgrees(values, items, log, w)
    requires w.phase.Granted? && Attempt(w.phase, values).Some?
    ensures w.seen < |log| && w.seen % 2 == 1
    ensures Attempt(w.phase, values).value.0 == items[Place(w.seen / 2 + 1, values, |items|)]
  {
    hide NextInRing, Following, StrictlySorted, Place, Chained, OnSchedule, DeliveryAgrees;
    var p :| Deletes(log, w.seen, p) && PhaseAgrees(values, items, p, w.phase);
    WritesAreEven(values, items, log, w.seen);
    DeletedOnSchedule(values, items, log, w.seen / 2, p);
    ScheduleStep(values, items, w.seen / 2);
  }

  lemma DeletedOnSchedule(values: nat, items: seq<string>, log: seq<Event<string>>, k: nat, p: string)
    requires OnSchedule(values, items, log) && Chained(log) && Deletes(log, 2 * k + 1, p)
    ensures p == items[Place(k, values, |items|)]
  {
    assert Scheduled(values, items, log, k);
    assert Reported(log[2 * k + 1]) == Before(log, 2 * k + 1);
  }

  /** A winner finds the trigger gone. */
  lemma WinnerFindsEven(values: nat, items: seq<string>, s: State, step: Step)
    requires Safe(s) && OnSchedule(values, items, TriggerLog(s.store)) && Wins(values, s, step)
    ensures |TriggerLog(s.store)| % 2 == 0
  {
    assert KeyConsistent(s.store, Trigger);
    var log := TriggerLog(s.store);
    if log != [] { WritesAreEven(values, items, log, |log| - 1); }
  }

  lemma HandlerExactly(values: nat, items: seq<string>, log: seq<Event<string>>, w: Watcher, e: Event<string>)
    requires StrictlySorted(items) && Fitting(values, items) && Chained(log) && |log| % 2 == 0
    requires OnSchedule(values, items, log) && WatcherAgrees(values, items, log, w) && w.phase.Granted?
    requires Attempt(w.phase, values).Some? && e.Put? && e.entry.value == Attempt(w.phase, values).value.0
    ensures OnSchedule(values, items, log + [e]) <==> (Behind(|log|, w) * values) % |items| == 0
  {
    hide OnSchedule, StrictlySorted, Place, Following, WatcherAgrees, Chained;
    HandlerValue(values, items, log, w);
    var n, k := |log| / 2, w.seen / 2 + 1;
    assert Behind(|log|, w) == n - k;
    PutOnSchedule(values, items, log, e, n);
    LatePlace(values, items, k, n - k);
  }

  lemma EnsurerExactly(values: nat, items: seq<string>, log: seq<Event<string>>, w: Watcher, e: Event<string>)
    requires StrictlySorted(items) && |log| % 2 == 0
    requires OnSchedule(values, items, log) && WatcherAgrees(values, items, log, w) && w.phase.EnsureGranted?
    requires e.Put? && e.entry.value == w.phase.first
    ensures OnSchedule(values, items, log + [e]) <==> (Behind(|log|, w) * values) % |items| == 0
  {
    assert w.phase.first == items[0];
    hide OnSchedule, StrictlySorted, Place, WatcherAgrees;
    PutOnSchedule(values, items, log, e, |log| / 2);
    FirstOnSchedule(values, items);
    LatePlace(values, items, 0, |log| / 2);
  }

  lemma WinnerExactly(values: nat, items: seq<string>, s: State, step: Step, e: Event<string>)
    requires Safe(s) && Fitting(values, items) && StrictlySorted(items) && Agree(values, items, s)
    requires OnSchedule(values, items, TriggerLog(s.store)) && Wins(values, s, step)
    requires e.Put? && e.entry.value == Attempt(s.watchers[step.w].phase, values).value.0
    ensures OnSchedule(values, items, TriggerLog(s.store) + [e]) <==> Harmless(values, items, s, step)
  {
    WinnerFindsEven(values, items, s, step);
    assert KeyConsistent(s.store, Trigger);
    hide Consistent, OnlyCreations, HeldApart, OnSchedule, StrictlySorted, Following, WatcherAgrees, Chained, Behind;
    var log, x := TriggerLog(s.store), s.watchers[step.w];
    assert WatcherAgrees(values, items, log, x);
    if x.phase.Granted? { HandlerExactly(values, items, log, x, e); } else { EnsurerExactly(values, items, log, x, e); }
  }

  lemma StepExactly(values: nat, items: seq<string>, s: State, step: Step)
    requires Safe(s) && Fitting(values, items) && Items(s.store) == items && Agree(values, items, s)
    requires OnSchedule(values, items, TriggerLog(s.store))
    ensures OnSchedule(values, items, TriggerLog(Next(values, s, step).store)) <==> Harmless(values, items, s, step)
  {
    LogStep(values, s, step);
    hide Safe, Agree, OnSchedule, Next, Harmless;
    var log, log' := TriggerLog(s.store), TriggerLog(Next(values, s, step).store);
    if log' == log || log'[|log|].Delete? {
      NoWinWithoutWrite(values, s, step);
      assert Harmless(values, items, s, step) by { NotWinningIsHarmless(values, items, s, step); }
      if log' != log { ScheduleAfterDelete(values, items, log, log'); }
    } else {
      assert log' == log + [log'[|log|]];
      WinnerExactly(values, items, s, step, log'[|log|]);
    }
  }

  lemma NotWinningIsHarmless(values: nat, items: seq<string>, s: State, step: Step)
    requires items != [] && !Wins(values, s, step)
    ensures Harmless(values, items, s, step)
  {
  }

  lemma NoWinWithoutWrite(values: nat, s: State, step: Step)
    ensures Wins(values, s, step) ==>
      && |TriggerLog(Next(values, s, step).store)| == |TriggerLog(s.store)| + 1
      && TriggerLog(Next(values, s, step).store)[|TriggerLog(s.store)|].Put?
  {
  }

  /** In every run on a ring with fixed items, from every state that is on schedule: a step keeps
      the schedule if and only if it writes no trigger, or writes one whose lateness adds up to
      whole rounds, be it by a handler that answers an old expiry or by ensureActiveTrigger. */
  lemma ScheduleKeptExactly(values: nat, items: seq<string>, s: State, run: seq<Step>, step: Step)
    requires Init(s) && Fitting(values, items) && Stable(values, s, run, items)
    requires OnSchedule(values, items, TriggerLog(Exec(values, s, run).store))
    ensures var t := Exec(values, s, run);
      OnSchedule(values, items, TriggerLog(Next(values, t, step).store)) <==> Harmless(values, items, t, step)
  {
    ExecSafe(values, s, run);
    ExecAgrees(values, items, s, run);
    StableToTheEnd(values, s, run, items);
    hide Exec, Safe, Agree, OnSchedule, Next, Harmless;
    StepExactly(values, items, Exec(values, s, run), step);
  }

  lemma {:induction false} StableToTheEnd(values: nat, s: State, steps: seq<Step>, items: seq<string>)
    requires Stable(values, s, steps, items)
    ensures Items(Exec(values, s, steps).store) == items
    decreases |steps|
  {
    if steps != [] { StableToTheEnd(values, Next(values, s, steps[0]), steps[1..], items); }
  }

  /** Every state of the run is on schedule. */
  ghost predicate AlwaysOnSchedule(values: nat, items: seq<string>, s: State, steps: seq<Step>)
    decreases |steps|
  {
    && OnSchedule(values, items, TriggerLog(s.store))
    && (steps == [] || AlwaysOnSchedule(values, items, Next(values, s, steps[0]), steps[1..]))
  }

  lemma {:induction false} RunExactly(values: nat, items: seq<string>, s: State, steps: seq<Step>)
    requires Safe(s) && Fitting(values, items) && Agree(values, items, s) && Stable(values, s, steps, items)
    requires OnSchedule(values, items, TriggerLog(s.store))
    ensures AlwaysOnSchedule(values, items, s, steps) <==> HarmlessRun(values, items, s, steps)
    decreases |steps|
  {
    hide Safe, Agree, OnSchedule, Next, Harmless;
    if steps != [] {
      StepExactly(values, items, s, steps[0]);
      if Harmless(values, items, s, steps[0]) {
        NextSafe(values, s, steps[0]);
        NextAgrees(values, items, s, steps[0]);
        RunExactly(values, items, Next(values, s, steps[0]), steps[1..]);
      } else {
        NotAlways(values, items, Next(values, s, steps[0]), steps[1..]);
      }
    }
  }

  lemma NotAlways(values: nat, items: seq<string>, s: State, steps: seq<Step>)
    requires !OnSchedule(values, items, TriggerLog(s.store))
    ensures !AlwaysOnSchedule(values, items, s, steps)
  {
  }

  /** A run on a ring with fixed items is on schedule throughout if and only if all its trigger
      writes are harmless. */
  lemma RunOnScheduleExactly(values: nat, items: seq<string>, s: State, steps: seq<Step>)
    requires Init(s) && Fitting(values, items) && Stable(values, s, steps, items)
    ensures AlwaysOnSchedule(values, items, s, steps) <==> HarmlessRun(values, items, s, steps)
  {
    StartsOnSchedule(values, items, s);
    hide OnSchedule, AlwaysOnSchedule, HarmlessRun;
    RunExactly(values, items, s, steps);
  }

  lemma {:induction false} AlwaysMeansLast(values: nat, items: seq<string>, s: State, steps: seq<Step>)
    requires AlwaysOnSchedule(values, items, s, steps)
    ensures OnSchedule(values, items, TriggerLog(Exec(values, s, steps).store))
    decreases |steps|
  {
    hide OnSchedule;
    if steps != [] { AlwaysMeansLast(values, items, Next(values, s, steps[0]), steps[1..]); }
  }

  // ---- Fairness of the whole protocol ----

  /** Everything a list of notifications carries, in order. */
  function Handed(ds: seq<Delivery>): seq<string> {
    if ds == [] then [] else Handed(ds[..|ds| - 1]) + ds[|ds| - 1].values
  }

  /** The notifications answer consecutive deletions, starting with deletion number `from`. */
  ghost predicate Consecutive(ds: seq<Delivery>, from: nat) {
    forall i :: 0 <= i < |ds| ==> ds[i].event == 2 * (from + i) + 1
  }

  /** The notification carries the window of the k-th trigger of the schedule. */
  ghost predicate Carries(values: nat, items: seq<string>, d: Delivery, k: nat)
    requires items != []
  {
    d.values == At(items, Circle.Walk(Place(k, values, |items|), values, |items|))
  }

  /** What `m` windows from the trigger number `from` of the schedule hold. */
  ghost function Stretch(values: nat, items: seq<string>, from: nat, m: nat): seq<string>
    requires items != []
  {
    At(items, Circle.Walk(Place(from, values, |items|), Circle.Times(m, values), |items|))
  }

  lemma {:induction false} HandedIsWalk(values: nat, items: seq<string>, ds: seq<Delivery>, from: nat)
    requires items != [] && forall i :: 0 <= i < |ds| ==> Carries(values, items, ds[i], from + i)
    ensures Handed(ds) == Stretch(values, items, from, |ds|)
  {
    hide Stretch, Carries;
    if ds == [] {
      NothingHanded(values, items, from);
    } else {
      var front, m := ds[..|ds| - 1], |ds| - 1;
      HandedIsWalk(values, items, front, from);
      WindowsJoin(values, items, ds[m], from, m);
    }
  }

  lemma WindowsJoin(values: nat, items: seq<string>, d: Delivery, from: nat, m: nat)
    requires items != [] && Carries(values, items, d, from + m)
    ensures Stretch(values, items, from, m) + d.values == Stretch(values, items, from, m + 1)
  {
    hide At, Circle.Walk, Place, Circle.Times, Within;
    var N := |items|;
    var a := Circle.Walk(Place(from, values, N), Circle.Times(m, values), N);
    var b := Circle.Walk(Place(from + m, values, N), values, N);
    WalkGrows(values, from, m, N);
    WalkWithin(a, b, Place(from, values, N), Place(from + m, values, N), N);
    AtAppend(items, a, b);
  }

  lemma WalkWithin(a: seq<nat>, b: seq<nat>, s: nat, t: nat, n: nat)
    requires n > 0 && a == Circle.Walk(s, |a|, n) && b == Circle.Walk(t, |b|, n)
    ensures Within(a, n) && Within(b, n)
  {
    hide Circle.Walk;
  }

  lemma NothingHanded(values: nat, items: seq<string>, from: nat)
    requires items != []
    ensures Stretch(values, items, from, 0) == []
  {
  }

  lemma WalkGrows(values: nat, from: nat, m: nat, n: nat)
    requires n > 0
    ensures Circle.Walk(Place(from, values, n), Circle.Times(m + 1, values), n) ==
      Circle.Walk(Place(from, values, n), Circle.Times(m, values), n) + Circle.Walk(Place(from + m, values, n), values, n)
  {
    hide Circle.Walk, Circle.Wrap, Place;
    Circle.WalkAppend(Place(from, values, n), Circle.Times(m, values), values, n);
    PlaceSum(from, m, values, n);
  }

  lemma WindowOnSchedule(values: nat, items: seq<string>, log: seq<Event<string>>, d: Delivery, k: nat)
    requires StrictlySorted(items) && OnSchedule(values, items, log) && Chained(log) && Fitting(values, items)
    requires DeliveryAgrees(values, items, log, d) && d.event == 2 * k + 1
    ensures Carries(values, items, d, k)
  {
    hide StrictlySorted, Window, At, Circle.Walk, Circle.Wrap, Start, Place;
    var N, i := |items|, Place(k, values, |items|);
    var p :| Deletes(log, d.event, p) && d.values == Window(items, p, values);
    assert Scheduled(values, items, log, k);
    assert Reported(log[2 * k + 1]) == Before(log, 2 * k + 1);
    assert p == items[i];
    StartOfItem(items, i);
    if values > N { WholeRoundsStay(values, items, k); }
    EntersExactly(items, p, i);
    WindowExact(items, p, values, i);
  }

  /** On a ring whose items do not change, in every run whose trigger writes are harmless, any
      stretch of consecutive expiries answered by any one watcher gives every item its fair
      share, rounded down or up. */
  lemma HarmlessRunsAreFair(values: nat, items: seq<string>, s: State, steps: seq<Step>, w: nat, lo: nat, hi: nat,
                            from: nat, i: nat)
    requires Init(s) && Fitting(values, items) && Stable(values, s, steps, items)
    requires HarmlessRun(values, items, s, steps)
    requires w in Exec(values, s, steps).watchers
    requires lo <= hi <= |Exec(values, s, steps).watchers[w].delivered|
    requires Consecutive(Exec(values, s, steps).watchers[w].delivered[lo..hi], from)
    requires i < |items|
    ensures var handed := Handed(Exec(values, s, steps).watchers[w].delivered[lo..hi]);
      Circle.FairShare(Circle.Count(handed, items[i]), (hi - lo) * values, |items|)
  {
    hide Exec, OnSchedule, WatcherAgrees, DeliveryAgrees, Consecutive, Handed, HarmlessRun, AlwaysOnSchedule;
    hide Circle.FairShare, Circle.Count;
    ExecSafe(values, s, steps);
    ExecAgrees(values, items, s, steps);
    RunOnScheduleExactly(values, items, s, steps);
    AlwaysMeansLast(values, items, s, steps);
    var t := Exec(values, s, steps);
    assert KeyConsistent(t.store, Trigger);
    DeliveriesAgree(values, items, TriggerLog(t.store), t.watchers[w]);
    ScheduledIsFair(values, items, TriggerLog(t.store), t.watchers[w].delivered[lo..hi], from, i);
  }

  lemma DeliveriesAgree(values: nat, items: seq<string>, log: seq<Event<string>>, w: Watcher)
    requires WatcherAgrees(values, items, log, w)
    ensures forall i :: 0 <= i < |w.delivered| ==> DeliveryAgrees(values, items, log, w.delivered[i])
  {
  }

  lemma StartsOnSchedule(values: nat, items: seq<string>, s: State)
    requires Init(s) && items != []
    ensures OnSchedule(values, items, TriggerLog(s.store))
  {
  }

  lemma ScheduledIsFair(values: nat, items: seq<string>, log: seq<Event<string>>, ds: seq<Delivery>, from: nat, i: nat)
    requires StrictlySorted(items) && OnSchedule(values, items, log) && Chained(log) && Fitting(values, items)
    requires forall j :: 0 <= j < |ds| ==> DeliveryAgrees(values, items, log, ds[j])
    requires Consecutive(ds, from) && i < |items|
    ensures Circle.FairShare(Circle.Count(Handed(ds), items[i]), |ds| * values, |items|)
  {
    assert items != [];
    hide OnSchedule, Chained, DeliveryAgrees, StrictlySorted, Circle.Walk, Circle.FairShare, Circle.Count, At, Place, Carries;
    forall j | 0 <= j < |ds| ensures Carries(values, items, ds[j], from + j) {
      WindowOnSchedule(values, items, log, ds[j], from + j);
    }
    HandedIsWalk(values, items, ds, from);
    FairHanded(items, Place(from, values, |items|), Circle.Times(|ds|, values), i);
    Circle.TimesIsProduct(|ds|, values);
  }

  lemma FairHanded(items: seq<string>, s: nat, m: nat, i: nat)
    requires StrictlySorted(items) && s < |items| && i < |items|
    ensures Circle.FairShare(Circle.Count(At(items, Circle.Walk(s, m, |items|)), items[i]), m, |items|)
  {
    hide StrictlySorted, Circle.Walk, Circle.Count, At;
    CountAt(items, Circle.Walk(s, m, |items|), i);
    Circle.WalkIsFair(s, m, i, |items|);
  }
}
