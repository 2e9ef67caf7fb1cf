/** The round-robin interval scheduler: one ring watcher per subscription of a check, set up
    anew when the check changes, and the requests published when a watcher is notified. */
module RoundRobin {
  import Keys
  import RingProtocol

  datatype Check = Check(namespace: string, subscriptions: seq<string>, interval: nat, proxied: bool)

  /** What a watcher was set up with: how many agents it asks the ring for, how often, and the
      proxy entities that were matched at that moment (none for a check without proxies). */
  datatype Slot = Slot(values: nat, interval: nat, proxies: seq<string>)

  type Slots = map<string, Slot>

  function Paths(namespace: string, subscriptions: seq<string>): (r: seq<string>)
    ensures |r| == |subscriptions|
    ensures forall i {:trigger r[i]} :: 0 <= i < |r| ==> r[i] == Keys.RingPath(namespace, subscriptions[i])
  {
    if subscriptions == [] then []
    else [Keys.RingPath(namespace, subscriptions[0])] + Paths(namespace, subscriptions[1..])
  }

  function Wanted(check: Check, matched: seq<string>): (slot: Slot)
    ensures slot.values == Size(Update(check, matched))
  {
    if check.proxied then Slot(|matched|, check.interval, matched) else Slot(1, check.interval, [])
  }

  /** A watcher that asks for the right number of agents is not set up anew. */
  predicate Retained(slots: Slots, path: string, values: nat) { path in slots && slots[path].values == values }

  /** The watchers after an update. */
  function Plan(slots: Slots, check: Check, matched: seq<string>): Slots {
    var want := Wanted(check, matched);
    if check.proxied && matched == [] then slots
    else
      map p | p in Paths(check.namespace, check.subscriptions) ::
        if Retained(slots, p, want.values) then slots[p] else want
  }

  // ---- What an update achieves ----

  lemma PathOf(namespace: string, subscriptions: seq<string>, p: string)
    ensures p in Paths(namespace, subscriptions)
      <==> exists s :: s in subscriptions && p == Keys.RingPath(namespace, s)
  {
    var paths := Paths(namespace, subscriptions);
    if p in paths {
      var i :| 0 <= i < |paths| && paths[i] == p;
      assert subscriptions[i] in subscriptions;
    }
    if s :| s in subscriptions && p == Keys.RingPath(namespace, s) {
      var i :| 0 <= i < |subscriptions| && subscriptions[i] == s;
      assert paths[i] == p;
    }
  }

  datatype Update = Update(check: Check, matched: seq<string>)

  /** The watchers after a scheduler's updates so far. */
  function Updates(updates: seq<Update>): Slots {
    if updates == [] then map[]
    else Plan(Updates(updates[..|updates| - 1]), updates[|updates| - 1].check, updates[|updates| - 1].matched)
  }

  predicate Effective(u: Update) { !(u.check.proxied && u.matched == []) }

  predicate Covers(u: Update, p: string) { p in Paths(u.check.namespace, u.check.subscriptions) }

  /** How many agents the update asks for. */
  function Size(u: Update): nat { if u.check.proxied then |u.matched| else 1 }

  /** From update `i` on the path has been subscribed to and the same number of agents asked for. */
  ghost predicate Since(updates: seq<Update>, p: string, i: nat) {
    && i < |updates| && Effective(updates[i]) && Covers(updates[i], p)
    && forall j :: i < j < |updates| && Effective(updates[j]) ==> Covers(updates[j], p) && Size(updates[j]) == Size(updates[i])
  }

  ghost predicate Origin(updates: seq<Update>, p: string, i: nat) {
    Since(updates, p, i) && forall k: nat :: k < i ==> !Since(updates, p, k)
  }

  lemma SinceSnoc(updates: seq<Update>, p: string, i: nat)
    requires i + 1 < |updates|
    ensures var before, u := updates[..|updates| - 1], updates[|updates| - 1];
      Since(updates, p, i) <==> Since(before, p, i) && (Effective(u) ==> Covers(u, p) && Size(u) == Size(updates[i]))
  {
    hide Effective, Covers, Size;
    var before := updates[..|updates| - 1];
    assert before[i] == updates[i];
    assert forall j :: i < j < |before| ==> before[j] == updates[j];
  }

  lemma OriginExists(updates: seq<Update>, p: string, i: nat) returns (o: nat)
    requires Since(updates, p, i)
    ensures o <= i && Origin(updates, p, o)
    decreases i
  {
    o := i;
    if k: nat :| k < i && Since(updates, p, k) { o := OriginExists(updates, p, k); }
  }

  lemma PlanAt(slots: Slots, u: Update, p: string)
    requires Effective(u)
    ensures p in Plan(slots, u.check, u.matched) <==> Covers(u, p)
    ensures Covers(u, p) ==>
      Plan(slots, u.check, u.matched)[p] == if Retained(slots, p, Size(u)) then slots[p] else Wanted(u.check, u.matched)
  {
    hide Paths;
  }

  /** After any updates: a path has a watcher if and only if there is an update since which it
      has been subscribed to without a break. */
  lemma {:induction false} WatcherExists(updates: seq<Update>, p: string)
    ensures p in Updates(updates) <==> exists i :: Since(updates, p, i)
  {
    hide Wanted, Plan, Covers, Effective, Size, Since;
    if updates != [] {
      var before, u, n := updates[..|updates| - 1], updates[|updates| - 1], |updates| - 1;
      WatcherExists(before, p);
      if Effective(u) {
        PlanAt(Updates(before), u, p);
        LatestSince(updates, p);
      } else {
        PlanUnchanged(Updates(before), u);
        if i :| Since(before, p, i) { IneffectiveSince(updates, p, i); }
        if i :| Since(updates, p, i) { IneffectiveSince(updates, p, i); }
      }
    } else {
      NeverSince(p);
    }
  }

  lemma NeverSince(p: string)
    ensures !exists i :: Since([], p, i)
  {
  }

  lemma PlanUnchanged(slots: Slots, u: Update)
    requires !Effective(u)
    ensures Plan(slots, u.check, u.matched) == slots
  {
  }

  lemma LatestSince(updates: seq<Update>, p: string)
    requires updates != [] && Effective(updates[|updates| - 1])
    ensures (exists i :: Since(updates, p, i)) <==> Covers(updates[|updates| - 1], p)
  {
    hide Covers, Effective, Size;
    if Covers(updates[|updates| - 1], p) { assert Since(updates, p, |updates| - 1); }
  }

  lemma IneffectiveSince(updates: seq<Update>, p: string, i: nat)
    requires updates != [] && !Effective(updates[|updates| - 1])
    ensures Since(updates, p, i) <==> Since(updates[..|updates| - 1], p, i)
  {
    hide Covers, Effective, Size;
    if i + 1 < |updates| { SinceSnoc(updates, p, i); }
  }

  lemma {:induction false} WatcherKept(updates: seq<Update>, p: string, i: nat)
    requires Origin(updates, p, i)
    ensures p in Updates(updates) && Updates(updates)[p] == Wanted(updates[i].check, updates[i].matched)
    decreases |updates|, 1
  {
    hide Wanted, Plan, Covers, Effective, Since;
    WatcherExists(updates, p);
    var before, u, n := updates[..|updates| - 1], updates[|updates| - 1], |updates| - 1;
    SinceIsIndex(updates, p, i);
    if !Effective(u) {
      PlanUnchanged(Updates(before), u);
      forall k: nat | k <= i ensures Since(before, p, k) <==> Since(updates, p, k) { IneffectiveSince(updates, p, k); }
      SinceIsIndex(before, p, i);
      WatcherKept(before, p, i);
    } else {
      PlanAt(Updates(before), u, p);
      if i < n {
        OlderOrigin(updates, p, i);
        WatcherKept(before, p, i);
      } else {
        NewOrigin(updates, p);
      }
    }
  }

  lemma SinceIsIndex(updates: seq<Update>, p: string, i: nat)
    requires Since(updates, p, i)
    ensures i < |updates| && Effective(updates[i]) && Covers(updates[i], p)
    ensures Effective(updates[|updates| - 1]) ==>
      Covers(updates[|updates| - 1], p) && Size(updates[|updates| - 1]) == Size(updates[i])
  {
  }

  lemma OlderOrigin(updates: seq<Update>, p: string, i: nat)
    requires Origin(updates, p, i) && i + 1 < |updates| && Effective(updates[|updates| - 1])
    ensures Origin(updates[..|updates| - 1], p, i)
  {
    hide Covers, Effective, Size;
    var before := updates[..|updates| - 1];
    SinceSnoc(updates, p, i);
    forall k: nat | k < i ensures !Since(before, p, k) {
      SinceSnoc(updates, p, k);
    }
  }

  lemma NewOrigin(updates: seq<Update>, p: string)
    requires updates != [] && Effective(updates[|updates| - 1]) && Origin(updates, p, |updates| - 1)
    ensures !Retained(Updates(updates[..|updates| - 1]), p, Size(updates[|updates| - 1]))
    decreases |updates|, 0
  {
    hide Wanted, Plan, Covers, Effective, Since;
    var before, u := updates[..|updates| - 1], updates[|updates| - 1];
    WatcherExists(before, p);
    SinceIsIndex(updates, p, |updates| - 1);
    if p in Updates(before) {
      var k :| Since(before, p, k);
      var o := OriginExists(before, p, k);
      SinceIsIndex(before, p, o);
      WatcherKept(before, p, o);
      SinceSnoc(updates, p, o);
      assert before[o] == updates[o];
    }
  }

  /** And it runs with the interval and the proxy entities of the first update since which the
      path has been subscribed to without a break with the same number of agents: later ones
      have not reached it. */
  lemma WatcherOrigin(updates: seq<Update>, p: string, i: nat)
    requires Origin(updates, p, i)
    ensures p in Updates(updates)
    ensures var u, slot := updates[i], Updates(updates)[p];
      && slot.interval == u.check.interval
      && (u.check.proxied ==> slot.proxies == u.matched && slot.values == |u.matched|)
      && (!u.check.proxied ==> slot.proxies == [] && slot.values == 1)
  {
    WatcherKept(updates, p, i);
  }

  /** Paths that come up twice are retained. */
  ghost predicate NoRepeats(slots: Slots, paths: seq<string>, values: nat) {
    forall i, j :: 0 <= i < j < |paths| && paths[i] == paths[j] ==> Retained(slots, paths[i], values)
  }

  /** No update that took effect set up a path twice. */
  ghost predicate Clean(updates: seq<Update>) {
    forall j :: 0 <= j < |updates| && Effective(updates[j]) ==> CleanAt(updates, j)
  }

  ghost predicate CleanAt(updates: seq<Update>, j: nat)
    requires j < |updates|
  {
    NoRepeats(Updates(updates[..j]), Paths(updates[j].check.namespace, updates[j].check.subscriptions), Size(updates[j]))
  }

  lemma CleanSnoc(updates: seq<Update>, u: Update)
    ensures Clean(updates + [u]) <==>
      && Clean(updates)
      && (Effective(u) ==> NoRepeats(Updates(updates), Paths(u.check.namespace, u.check.subscriptions), Size(u)))
  {
    hide NoRepeats, Effective, Size, Paths, Updates;
    var all, n := updates + [u], |updates|;
    assert all[..n] == updates;
    forall j | 0 <= j < n ensures all[j] == updates[j] && all[..j] == updates[..j] {
    }
    var paths := Paths(u.check.namespace, u.check.subscriptions);
    assert Effective(u) ==> (CleanAt(all, n) <==> NoRepeats(Updates(updates), paths, Size(u)));
    forall j | 0 <= j < n ensures CleanAt(all, j) <==> CleanAt(updates, j) {
    }
  }

  // ---- Publishing ----

  datatype Request = OnAgent(agent: string) | ForProxy(entity: string, agent: string)

  function Requests(proxied: bool, proxies: seq<string>, agents: seq<string>): (r: seq<Request>)
    requires proxied ==> |proxies| <= |agents|
    ensures |r| == if proxied then |proxies| else |agents|
    ensures forall i {:trigger r[i]} :: 0 <= i < |r| ==>
      r[i] == if proxied then ForProxy(proxies[i], agents[i]) else OnAgent(agents[i])
  {
    if proxied then
      if proxies == [] then [] else [ForProxy(proxies[0], agents[0])] + Requests(proxied, proxies[1..], agents[1..])
    else if agents == [] then []
    else [OnAgent(agents[0])] + Requests(proxied, proxies, agents[1..])
  }

  /** Publishes the requests in order up to the first that cannot be published, be it that its
      tokens cannot be substituted or that the bus refuses it. */
  method ProcessRoundRobinCheck(proxied: bool, proxies: seq<string>, agents: seq<string>, failing: set<Request>)
    returns (published: seq<Request>, ok: bool)
    requires proxied ==> |proxies| <= |agents|
    ensures published <= Requests(proxied, proxies, agents)
    ensures forall r :: r in published ==> r !in failing
    ensures ok <==> published == Requests(proxied, proxies, agents)
    ensures !ok ==> Requests(proxied, proxies, agents)[|published|] in failing
  {
    published := [];
    var n := if proxied then |proxies| else |agents|;
    ghost var all := Requests(proxied, proxies, agents);
    for i := 0 to n
      invariant published == all[..i]
      invariant forall r :: r in published ==> r !in failing
    {
      var request := if proxied then ForProxy(proxies[i], agents[i]) else OnAgent(agents[i]);
      assert request == all[i];
      if request in failing {
        return published, false;
      }
      published := published + [request];
    }
    ok := true;
  }

  /** The watchers of every run of updates, whatever checks and entities come along: a watcher
      that has proxy entities asks for exactly as many agents, and each asks for at least one. */
  ghost predicate Sized(slots: Slots) {
    forall p :: p in slots ==> slots[p].values > 0 && (slots[p].proxies == [] || |slots[p].proxies| == slots[p].values)
  }

  lemma {:induction false} UpdatesKeepSized(updates: seq<Update>)
    ensures Sized(Updates(updates))
  {
    if updates != [] {
      var before, u := updates[..|updates| - 1], updates[|updates| - 1];
      UpdatesKeepSized(before);
      assert Sized(Plan(Updates(before), u.check, u.matched));
    }
  }

  /** Whatever updates a scheduler has been through and whatever happens on the ring, every
      notification has exactly one agent for each proxy entity the watcher knows, if it knows
      any, so publishing never looks for one beyond the end of the notification. */
  lemma EveryProxyHasAnAgent(updates: seq<Update>, p: string,
                             s: RingProtocol.State, steps: seq<RingProtocol.Step>, w: nat, d: RingProtocol.Delivery)
    requires RingProtocol.Init(s) && p in Updates(updates)
    requires var t := RingProtocol.Exec(Updates(updates)[p].values, s, steps);
      w in t.watchers && d in t.watchers[w].delivered
    ensures |Updates(updates)[p].proxies| in {0, |d.values|}
  {
    UpdatesKeepSized(updates);
    RingProtocol.NotificationsAreFull(Updates(updates)[p].values, s, steps, w, d);
  }

  /** From the update to the requests: a watcher set up by an update with matched entities answers
      every notification, in every run of its ring, with one request for each entity matched, in
      their order, each for an agent of its own place in the notification. */
  lemma EveryMatchedEntityRequested(updates: seq<Update>, p: string, i: nat,
                                    s: RingProtocol.State, steps: seq<RingProtocol.Step>, w: nat, d: RingProtocol.Delivery)
    requires Origin(updates, p, i) && updates[i].check.proxied && RingProtocol.Init(s)
    requires p in Updates(updates)
    requires var t := RingProtocol.Exec(Updates(updates)[p].values, s, steps);
      w in t.watchers && d in t.watchers[w].delivered
    ensures var matched := updates[i].matched;
      && |d.values| == |matched|
      && Updates(updates)[p].proxies == matched
      && var requests := Requests(true, Updates(updates)[p].proxies, d.values);
         && |requests| == |matched|
         && forall k :: 0 <= k < |matched| ==> requests[k] == ForProxy(matched[k], d.values[k])
  {
    hide RingProtocol.Exec, RingProtocol.Init, Origin, Updates;
    WatcherOrigin(updates, p, i);
    RingProtocol.NotificationsAreFull(Updates(updates)[p].values, s, steps, w, d);
  }

  /** And one set up by an update without proxies, with one request on one agent. */
  lemma OneAgentRequested(updates: seq<Update>, p: string, i: nat,
                          s: RingProtocol.State, steps: seq<RingProtocol.Step>, w: nat, d: RingProtocol.Delivery)
    requires Origin(updates, p, i) && !updates[i].check.proxied && RingProtocol.Init(s)
    requires p in Updates(updates)
    requires var t := RingProtocol.Exec(Updates(updates)[p].values, s, steps);
      w in t.watchers && d in t.watchers[w].delivered
    ensures |d.values| == 1 && Requests(false, Updates(updates)[p].proxies, d.values) == [OnAgent(d.values[0])]
  {
    hide RingProtocol.Exec, RingProtocol.Init, Origin, Updates;
    WatcherOrigin(updates, p, i);
    RingProtocol.NotificationsAreFull(Updates(updates)[p].values, s, steps, w, d);
  }

  /** A check without proxies that comes to have one proxy entity gets no request at all. */
  lemma NewProxyCheckStaysMute(check: Check, entity: string, agents: seq<string>, p: string)
    requires !check.proxied && p in Paths(check.namespace, check.subscriptions)
    ensures var slots := Updates([Update(check, []), Update(check.(proxied := true), [entity])]);
      p in slots && slots[p].proxies == [] && Requests(true, slots[p].proxies, agents) == []
  {
    var updates := [Update(check, []), Update(check.(proxied := true), [entity])];
    assert Covers(updates[0], p) && Covers(updates[1], p) && Size(updates[0]) == Size(updates[1]) == 1;
    WatcherOrigin(updates, p, 0);
  }
}
