/** The registry of check schedulers, kept in step with the check configurations in the store. */
module CheckWatchers {

  datatype SchedulerType = IntervalType | CronType | RoundRobinIntervalType | RoundRobinCronType

  datatype CheckConfig = CheckConfig(name: string, namespace: string, cron: string, roundRobin: bool, interval: nat)

  function TypeOf(c: CheckConfig): SchedulerType {
    if c.cron != "" then (if c.roundRobin then RoundRobinCronType else CronType)
    else if c.roundRobin then RoundRobinIntervalType else IntervalType
  }

  /** The type says whether there is a cron schedule and whether the check goes round robin, and
      nothing else. */
  lemma TypeSeparates(c: CheckConfig, d: CheckConfig)
    ensures TypeOf(c) == TypeOf(d) <==> (c.cron == "" <==> d.cron == "") && c.roundRobin == d.roundRobin
    ensures TypeOf(c) in {CronType, RoundRobinCronType} <==> c.cron != ""
    ensures TypeOf(c) in {RoundRobinIntervalType, RoundRobinCronType} <==> c.roundRobin
  {
  }

  /** Name and namespace joined by a dash: not always different for different checks. */
  function UniqueKey(c: CheckConfig): string { c.name + "-" + c.namespace }

  datatype Action = Create | Update | Remove

  datatype WatchEvent = WatchEvent(action: Action, check: CheckConfig)

  // ---- The reference ----

  /** The configuration each registered scheduler works with. */
  type Registry = map<string, CheckConfig>

  /** With a live context: a creation for a key that already has a scheduler of the right type
      is ignored; everything else takes effect. */
  function After(reg: Registry, e: WatchEvent): Registry {
    var k := UniqueKey(e.check);
    match e.action
    case Create => if k in reg && TypeOf(reg[k]) == TypeOf(e.check) then reg else reg[k := e.check]
    case Update => reg[k := e.check]
    case Remove => reg - {k}
  }

  /** During shutdown no scheduler is started any more, but replaced ones are still stopped. */
  function AfterShutdown(reg: Registry, e: WatchEvent): Registry {
    var k := UniqueKey(e.check);
    match e.action
    case Create => reg
    case Update => if k !in reg then reg else if TypeOf(reg[k]) == TypeOf(e.check) then reg[k := e.check] else reg - {k}
    case Remove => reg - {k}
  }

  /** Nothing new comes up during shutdown and no scheduler changes its type; what goes is what
      is removed or would have had to be replaced. */
  lemma ShutdownStartsNothing(reg: Registry, e: WatchEvent, k: string)
    ensures k in AfterShutdown(reg, e) <==>
      k in reg && (k == UniqueKey(e.check) ==> e.action == Create || (e.action == Update && TypeOf(reg[k]) == TypeOf(e.check)))
    ensures k in AfterShutdown(reg, e) ==>
      && TypeOf(AfterShutdown(reg, e)[k]) == TypeOf(reg[k])
      && (AfterShutdown(reg, e)[k] == if k == UniqueKey(e.check) && e.action == Update then e.check else reg[k])
  {
  }

  function Registered(events: seq<WatchEvent>): Registry {
    if events == [] then map[] else After(Registered(events[..|events| - 1]), events[|events| - 1])
  }

  /** The last configuration seen for each key, if it was not a removal. */
  function LastSeen(events: seq<WatchEvent>): Registry {
    if events == [] then map[]
    else
      var before, e := LastSeen(events[..|events| - 1]), events[|events| - 1];
      if e.action == Remove then before - {UniqueKey(e.check)} else before[UniqueKey(e.check) := e.check]
  }

  /** After any events: a scheduler is registered for exactly the keys last seen created or
      updated, and its type is that of the last configuration seen. */
  lemma {:induction false} TypesFollowConfig(events: seq<WatchEvent>)
    ensures Registered(events).Keys == LastSeen(events).Keys
    ensures forall k :: k in Registered(events) ==> TypeOf(Registered(events)[k]) == TypeOf(LastSeen(events)[k])
  {
    if events != [] { TypesFollowConfig(events[..|events| - 1]); }
  }

  /** After any events, with event `i` the last about its check and not a removal: the check's
      scheduler runs the configuration last seen if and only if that did not arrive as a creation
      for a scheduler of the same type that was running something else. */
  lemma {:induction false} ConfigIsCurrentExactly(events: seq<WatchEvent>, i: nat)
    requires i < |events| && events[i].action != Remove
    requires forall j :: i < j < |events| ==> UniqueKey(events[j].check) != UniqueKey(events[i].check)
    ensures var e := events[i]; var k := UniqueKey(e.check); var before := Registered(events[..i]);
      && k in Registered(events) && LastSeen(events).Keys >= {k} && LastSeen(events)[k] == e.check
      && (Registered(events)[k] == e.check
          <==> !(e.action == Create && k in before && TypeOf(before[k]) == TypeOf(e.check) && before[k] != e.check))
  {
    hide UniqueKey, TypeOf;
    var front := events[..|events| - 1];
    if i == |events| - 1 {
      assert front == events[..i];
    } else {
      assert front[..i] == events[..i] && front[i] == events[i];
      forall j | i < j < |front| ensures UniqueKey(front[j].check) != UniqueKey(front[i].check) {
        assert front[j] == events[j];
      }
      ConfigIsCurrentExactly(front, i);
    }
  }

  /** Two checks in two namespaces can share a scheduler. */
  lemma KeysCollide()
    ensures exists a: CheckConfig, b: CheckConfig ::
      a.name != b.name && a.namespace != b.namespace && UniqueKey(a) == UniqueKey(b)
  {
    var a := CheckConfig("disk-usage", "prod", "", false, 60);
    var b := CheckConfig("disk", "usage-prod", "", false, 60);
    assert UniqueKey(a) == UniqueKey(b) == "disk-usage-prod";
  }

  /** The longer name goes on, after a dash, with the start of the other's namespace. */
  ghost predicate Overlap(a: CheckConfig, b: CheckConfig) {
    exists x: string :: Overlaps(a, b, x)
  }

  ghost predicate Overlaps(a: CheckConfig, b: CheckConfig, x: string) {
    a.name == b.name + "-" + x && b.namespace == x + "-" + a.namespace
  }

  lemma LongerNameOverlaps(a: CheckConfig, b: CheckConfig)
    requires UniqueKey(a) == UniqueKey(b) && |a.name| > |b.name|
    ensures Overlap(a, b)
  {
    var k, i := UniqueKey(a), |b.name|;
    var x := a.name[i + 1..];
    assert k[..i] == b.name && k[..|a.name|] == a.name;
    assert k[i] == '-' && a.name[i] == k[i];
    assert a.name == a.name[..i] + [a.name[i]] + x;
    assert a.name[..i] == b.name;
    assert k[i + 1..] == b.namespace;
    assert k[i + 1..] == x + "-" + a.namespace;
    assert Overlaps(a, b, x);
  }

  lemma OverlapCollides(a: CheckConfig, b: CheckConfig)
    requires Overlap(a, b)
    ensures UniqueKey(a) == UniqueKey(b)
  {
    var x :| Overlaps(a, b, x);
    assert b.name + "-" + x + "-" + a.namespace == b.name + "-" + (x + "-" + a.namespace);
  }

  /** Exactly when two checks share a scheduler key: they are the same, or the name of one runs
      over into the namespace of the other at a dash. */
  lemma KeysCollideExactly(a: CheckConfig, b: CheckConfig)
    ensures UniqueKey(a) == UniqueKey(b)
      <==> (a.name == b.name && a.namespace == b.namespace) || Overlap(a, b) || Overlap(b, a)
  {
    if Overlap(a, b) { OverlapCollides(a, b); }
    if Overlap(b, a) { OverlapCollides(b, a); }
    if UniqueKey(a) == UniqueKey(b) {
      if |a.name| > |b.name| {
        LongerNameOverlaps(a, b);
      } else if |a.name| < |b.name| {
        LongerNameOverlaps(b, a);
      } else {
        assert a.name == UniqueKey(a)[..|a.name|] && b.name == UniqueKey(b)[..|b.name|];
        assert a.namespace == UniqueKey(a)[|a.name| + 1..] && b.namespace == UniqueKey(b)[|b.name| + 1..];
      }
    }
  }

  // ---- The code ----

  class Scheduler {
    const key: string
    const kind: SchedulerType
    var check: CheckConfig
    var running: bool

    constructor (check: CheckConfig)
      ensures key == UniqueKey(check) && kind == TypeOf(check) && this.check == check && !running
    {
      key := UniqueKey(check);
      kind := TypeOf(check);
      this.check := check;
      running := false;
    }

    method Start()
      modifies this`running
      ensures running
    {
      running := true;
    }

    method Stop()
      modifies this`running
      ensures !running
    {
      running := false;
    }

    method Interrupt(check: CheckConfig)
      modifies this`check
      ensures this.check == check
    {
      this.check := check;
    }
  }

  class CheckWatcher {
    var items: map<string, Scheduler>
    // whether the context is still live
    var live: bool
    // every scheduler ever started
    ghost var all: set<Scheduler>

    ghost predicate ItemOk(k: string)
      requires k in items
      reads this, all
    {
      items[k] in all && items[k].key == k && items[k].kind == TypeOf(items[k].check) && UniqueKey(items[k].check) == k
    }

    ghost predicate SchedulerOk(s: Scheduler)
      reads this, s
    {
      s.running <==> s.key in items && items[s.key] == s
    }

    /** The running schedulers are exactly the registered ones, so there is one per key. */
    ghost predicate Valid()
      reads this, all
    {
      (forall k :: k in items ==> ItemOk(k)) && (forall s :: s in all ==> SchedulerOk(s))
    }

    ghost function View(): Registry
      requires Valid()
      reads this, all
    {
      map k | k in items :: assert ItemOk(k); items[k].check
    }

    constructor ()
      ensures Valid() && View() == map[] && live && all == {}
    {
      items := map[];
      live := true;
      all := {};
    }

    /** Stop and forget the scheduler of a key, if there is one. */
    method Discard(k: string)
      requires Valid()
      modifies this`items, all
      ensures Valid() && View() == old(View()) - {k} && k !in items
    {
      hide UniqueKey, TypeOf;
      if k in items {
        assert ItemOk(k);
        items[k].Stop();
        items := items - {k};
        forall j | j in items ensures ItemOk(j) { assert old(ItemOk(j)); }
        forall s | s in all ensures SchedulerOk(s) { assert old(SchedulerOk(s)); }
      }
    }

    method Launch(check: CheckConfig)
      requires Valid() && UniqueKey(check) !in items
      modifies this`items, this`all
      ensures Valid() && fresh(all - old(all)) && old(all) <= all
      ensures View() == old(View())[UniqueKey(check) := check]
    {
      hide UniqueKey, TypeOf;
      var s := new Scheduler(check);
      s.Start();
      items := items[s.key := s];
      all := all + {s};
      forall j | j in items ensures ItemOk(j) { if j != s.key { assert old(ItemOk(j)); } }
      forall x | x in all ensures SchedulerOk(x) { if x != s { assert old(SchedulerOk(x)); } }
    }

    method StartScheduler(check: CheckConfig)
      requires Valid()
      modifies this`items, this`all, all
      ensures Valid() && fresh(all - old(all)) && old(all) <= all
      ensures !live ==> View() == old(View())
      ensures live ==> View() == After(old(View()), WatchEvent(Create, check))
    {
      hide UniqueKey, TypeOf, SchedulerOk;
      if !live {
        return;
      }
      var k := UniqueKey(check);
      if k in items {
        assert ItemOk(k);
        if items[k].kind == TypeOf(check) {
          return;
        }
        Discard(k);
      }
      Launch(check);
    }

    method HandleWatchEvent(e: WatchEvent)
      requires Valid()
      modifies this`items, this`all, all
      ensures Valid() && fresh(all - old(all)) && old(all) <= all
      ensures live ==> View() == After(old(View()), e)
      ensures !live ==> View() == AfterShutdown(old(View()), e)
    {
      hide UniqueKey, TypeOf;
      var k := UniqueKey(e.check);
      match e.action {
        case Create => StartScheduler(e.check);
        case Update =>
          if k !in items {
            StartScheduler(e.check);
            return;
          }
          assert ItemOk(k);
          if items[k].kind == TypeOf(e.check) {
            Reconfigure(k, e.check);
          } else {
            Discard(k);
            StartScheduler(e.check);
          }
        case Remove => Discard(k);
      }
    }

    method Reconfigure(k: string, check: CheckConfig)
      requires Valid() && k in items && items[k] in all && items[k].kind == TypeOf(check) && UniqueKey(check) == k
      modifies items[k]
      ensures Valid() && View() == old(View())[k := check]
    {
      hide UniqueKey, TypeOf;
      items[k].Interrupt(check);
      forall j | j in items ensures ItemOk(j) { assert old(ItemOk(j)); }
      forall x | x in all ensures SchedulerOk(x) { assert old(SchedulerOk(x)); }
    }
  }

  /** Fed any sequence of events, the registry ends up as the reference says. */
  method Follow(events: seq<WatchEvent>) returns (watcher: CheckWatcher)
    ensures fresh(watcher) && watcher.Valid() && watcher.View() == Registered(events)
  {
    watcher := new CheckWatcher();
    for i := 0 to |events|
      invariant fresh(watcher) && fresh(watcher.all) && watcher.Valid() && watcher.live
      invariant watcher.View() == Registered(events[..i])
    {
      assert events[..i + 1][..i] == events[..i];
      watcher.HandleWatchEvent(events[i]);
    }
    assert events[..|events|] == events;
  }
}
