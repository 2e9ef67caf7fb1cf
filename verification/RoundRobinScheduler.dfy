/** The round-robin interval scheduler itself: the handles it remembers, one per subscription, and
    the ring watchers behind them. A ring starts no second watcher with the same number of values
    and the same interval; whoever asks for one shares the first, but only the context that the
    first was started with can end it. */
module RoundRobinSchedulers {
  import Keys
  import opened RoundRobin

  /** What a ring knows a check's watchers by. */
  datatype WatchKey = WatchKey(path: string, values: nat, interval: nat)

  /** A context with its cancel function, and what its watcher was asked for. */
  datatype Handle = Handle(id: nat, path: string, slot: Slot)

  type Handles = map<string, Handle>

  /** The watchers running, each with the context it was started with. */
  type Registry = map<WatchKey, nat>

  function NewKey(path: string, slot: Slot): WatchKey { WatchKey(path, slot.values, slot.interval) }

  function KeyOf(h: Handle): WatchKey { NewKey(h.path, h.slot) }

  predicate Owns(r: Registry, h: Handle) { KeyOf(h) in r && r[KeyOf(h)] == h.id }

  function SlotsOf(c: Handles): Slots { map p | p in c :: c[p].slot }

  predicate Keeps(c: Handles, p: string, values: nat) { p in c && c[p].slot.values == values }

  /** Every handle has a running watcher behind it, and one that a handle's context was started
      with is the handle's own. */
  ghost predicate HandlesOk(c: Handles, r: Registry, n: nat) {
    && (forall p :: p in c ==> c[p].path == p && c[p].id < n && KeyOf(c[p]) in r)
    && (forall k :: k in r ==> r[k] < n)
    && OnlyOwn(c, r)
  }

  ghost predicate OnlyOwn(c: Handles, r: Registry) {
    forall p, k :: p in c && k in r && r[k] == c[p].id ==> k == KeyOf(c[p])
  }

  /** Watchers that no handle can end any more. */
  ghost function LostOf(c: Handles, r: Registry): set<WatchKey> {
    set k | k in r && !(k.path in c && c[k.path].id == r[k])
  }

  /** The watchers an update loses: started for a path that comes up again, so that the handle of
      the second time, which shares the watcher, is the one remembered. */
  function Losing(c: Handles, r: Registry, paths: seq<string>, want: Slot): set<WatchKey> {
    if paths == [] then {}
    else
      var before, last := paths[..|paths| - 1], paths[|paths| - 1];
      Losing(c, r, before, want) +
      if last in before && !Keeps(c, last, want.values) && NewKey(last, want) !in r then {NewKey(last, want)} else {}
  }

  // ---- What is lost ----

  lemma {:induction false} LosingExactly(c: Handles, r: Registry, paths: seq<string>, want: Slot, k: WatchKey)
    ensures k in Losing(c, r, paths, want)
      <==> k == NewKey(k.path, want) && k !in r && !Keeps(c, k.path, want.values)
           && exists i, j :: 0 <= i < j < |paths| && paths[i] == k.path && paths[j] == k.path
  {
    if paths != [] {
      var before, n := paths[..|paths| - 1], |paths| - 1;
      LosingExactly(c, r, before, want, k);
      assert forall i :: 0 <= i < n ==> before[i] == paths[i];
      if paths[n] == k.path && k.path in before {
        var i :| 0 <= i < n && before[i] == k.path;
        assert paths[i] == k.path && paths[n] == k.path;
      }
      if i, j :| 0 <= i < j < |before| && before[i] == k.path && before[j] == k.path {
        assert paths[i] == k.path && paths[j] == k.path;
      }
      if i, j :| 0 <= i < j < |paths| && paths[i] == k.path && paths[j] == k.path {
        assert before[i] == k.path;
        if j < n { assert before[j] == k.path; }
      }
    }
  }

  /** With nothing lost so far, an update loses nothing if and only if the paths that come up
      twice are retained. */
  lemma NoRepeatsExactly(c: Handles, r: Registry, n: nat, paths: seq<string>, want: Slot)
    requires HandlesOk(c, r, n) && LostOf(c, r) == {}
    ensures Losing(c, r, paths, want) == {} <==> NoRepeats(SlotsOf(c), paths, want.values)
  {
    hide Losing;
    if NoRepeats(SlotsOf(c), paths, want.values) {
      forall k ensures k !in Losing(c, r, paths, want) {
        LosingExactly(c, r, paths, want, k);
      }
    } else {
      var i, j :| 0 <= i < j < |paths| && paths[i] == paths[j] && !Retained(SlotsOf(c), paths[i], want.values);
      var k := NewKey(paths[i], want);
      assert k !in LostOf(c, r);
      LosingExactly(c, r, paths, want, k);
      assert k in Losing(c, r, paths, want);
    }
  }

  /** A scheduler whose first update names a subscription twice loses the watcher it starts for it. */
  lemma TwiceLoses(check: Check, matched: seq<string>, i: nat, j: nat)
    requires Effective(Update(check, matched))
    requires i < j < |check.subscriptions| && check.subscriptions[i] == check.subscriptions[j]
    ensures NewKey(Keys.RingPath(check.namespace, check.subscriptions[i]), Wanted(check, matched)) in
      Losing(map[], map[], Paths(check.namespace, check.subscriptions), Wanted(check, matched))
  {
    hide Losing, Wanted;
    var paths, want := Paths(check.namespace, check.subscriptions), Wanted(check, matched);
    assert paths[i] == paths[j] == Keys.RingPath(check.namespace, check.subscriptions[i]);
    LosingExactly(map[], map[], paths, want, NewKey(paths[i], want));
  }

  // ---- In the middle of an update ----
  // `c` and `r0` are the handles and watchers before it, `n0` the first new context.

  /** A watcher that ended with the handle that an update over `done` replaces. */
  ghost predicate Dropped(c: Handles, r0: Registry, done: set<string>, values: nat, k: WatchKey)
    requires k in r0
  {
    k.path in done && !Keeps(c, k.path, values) && k.path in c && c[k.path].id == r0[k]
  }

  ghost predicate KeptOk(c: Handles, n0: nat, n: nat, r: Registry, kept: Handles, want: Slot) {
    forall p :: p in kept ==>
      && kept[p].path == p && kept[p].id < n
      && if Keeps(c, p, want.values) then kept[p] == c[p]
         else kept[p].slot == want && kept[p].id >= n0 && NewKey(p, want) in r
  }

  ghost predicate OldOk(c: Handles, r0: Registry, r: Registry, done: set<string>, values: nat) {
    forall k {:trigger k in r} {:trigger k in r0} :: k in r0 ==>
      (k in r <==> !Dropped(c, r0, done, values, k)) && (k in r ==> r[k] == r0[k])
  }

  /** The watchers started since, and which of them were started with the handle remembered. */
  ghost predicate StartedOk(c: Handles, r0: Registry, n0: nat, n: nat, r: Registry, kept: Handles, want: Slot,
                            lost: set<WatchKey>) {
    forall k :: k in r && k !in r0 ==>
      && k.path in kept && !Keeps(c, k.path, want.values) && k == NewKey(k.path, want) && n0 <= r[k] < n
      && (kept[k.path].id == r[k] <==> k !in lost)
  }

  ghost predicate OwnPath(r0: Registry, r: Registry, kept: Handles) {
    forall p, k :: p in kept && k in r && k !in r0 && r[k] == kept[p].id ==> k.path == p
  }

  ghost predicate NewOk(c: Handles, r0: Registry, n0: nat, n: nat, r: Registry, kept: Handles, want: Slot,
                        lost: set<WatchKey>) {
    && n0 <= n && StartedOk(c, r0, n0, n, r, kept, want, lost) && OwnPath(r0, r, kept)
    && (forall k :: k in lost ==> k in r && k !in r0)
  }

  ghost predicate Renewed(c: Handles, r0: Registry, n0: nat, want: Slot, r: Registry, n: nat, kept: Handles,
                          lost: set<WatchKey>) {
    && KeptOk(c, n0, n, r, kept, want) && OldOk(c, r0, r, kept.Keys, want.values)
    && NewOk(c, r0, n0, n, r, kept, want, lost)
  }

  function Cancelled(r: Registry, h: Handle): Registry { if Owns(r, h) then r - {KeyOf(h)} else r }

  function Watched(r: Registry, k: WatchKey, id: nat): Registry { if k in r then r else r[k := id] }

  lemma RenewedAtFirst(c: Handles, r0: Registry, n0: nat, want: Slot)
    requires HandlesOk(c, r0, n0)
    ensures Renewed(c, r0, n0, want, r0, n0, map[], {})
  {
  }

  lemma RetainOld(c: Handles, r0: Registry, r: Registry, done: set<string>, values: nat, key: string)
    requires OldOk(c, r0, r, done, values) && Keeps(c, key, values)
    ensures OldOk(c, r0, r, done + {key}, values)
  {
    forall k | k in r0 ensures Dropped(c, r0, done + {key}, values, k) <==> Dropped(c, r0, done, values, k) {
    }
  }

  lemma RetainNew(c: Handles, r0: Registry, n0: nat, want: Slot, r: Registry, n: nat, kept: Handles,
                  lost: set<WatchKey>, key: string)
    requires HandlesOk(c, r0, n0) && NewOk(c, r0, n0, n, r, kept, want, lost) && Keeps(c, key, want.values)
    ensures NewOk(c, r0, n0, n, r, kept[key := c[key]], want, lost)
  {
    assert c[key].id < n0;
    hide HandlesOk;
    assert StartedOk(c, r0, n0, n, r, kept[key := c[key]], want, lost);
  }

  lemma RetainStep(c: Handles, r0: Registry, n0: nat, want: Slot, r: Registry, n: nat, kept: Handles,
                   lost: set<WatchKey>, key: string)
    requires HandlesOk(c, r0, n0) && Renewed(c, r0, n0, want, r, n, kept, lost) && Keeps(c, key, want.values)
    ensures Renewed(c, r0, n0, want, r, n, kept[key := c[key]], lost)
  {
    RetainOld(c, r0, r, kept.Keys, want.values, key);
    RetainNew(c, r0, n0, want, r, n, kept, lost, key);
    RetainKept(c, r0, n0, want, r, n, kept, key);
    hide HandlesOk, KeptOk, OldOk, StartedOk, OwnPath;
    assert kept[key := c[key]].Keys == kept.Keys + {key};
    assert n0 <= n;
  }

  lemma RetainKept(c: Handles, r0: Registry, n0: nat, want: Slot, r: Registry, n: nat, kept: Handles, key: string)
    requires HandlesOk(c, r0, n0) && KeptOk(c, n0, n, r, kept, want) && Keeps(c, key, want.values) && n0 <= n
    ensures KeptOk(c, n0, n, r, kept[key := c[key]], want)
  {
  }

  /** The registry after a replaced handle is cancelled and a new one has asked for its watcher. */
  function Replacing(c: Handles, r: Registry, key: string, want: Slot, id: nat): Registry {
    Watched(if key in c then Cancelled(r, c[key]) else r, NewKey(key, want), id)
  }

  lemma ReplaceOld(c: Handles, r0: Registry, n0: nat, want: Slot, r: Registry, done: set<string>, key: string, id: nat)
    requires HandlesOk(c, r0, n0) && OldOk(c, r0, r, done, want.values) && !Keeps(c, key, want.values)
    requires forall k :: k in r && k !in r0 ==> r[k] >= n0
    ensures OldOk(c, r0, Replacing(c, r, key, want, id), done + {key}, want.values)
  {
    var r' := Replacing(c, r, key, want, id);
    forall k | k in r0
      ensures (k in r' <==> !Dropped(c, r0, done + {key}, want.values, k)) && (k in r' ==> r'[k] == r0[k])
    {
      assert key in c ==> KeyOf(c[key]) != NewKey(key, want);
      if key in c && k in r && k == KeyOf(c[key]) { assert r[k] == r0[k]; }
    }
  }

  /** Whether the new watcher is really new. */
  lemma ReplaceStarts(c: Handles, r0: Registry, n0: nat, n: nat, want: Slot, r: Registry, kept: Handles,
                      lost: set<WatchKey>, key: string)
    requires HandlesOk(c, r0, n0) && Renewed(c, r0, n0, want, r, n, kept, lost) && !Keeps(c, key, want.values)
    ensures Starts(r0, r, Replacing(c, r, key, want, n), NewKey(key, want), n, key in kept)
  {
    var k := NewKey(key, want);
    assert key in c ==> KeyOf(c[key]) != k && KeyOf(c[key]) in r0;
    if k in r0 { assert k in r; }
  }

  function Forgetting(r0: Registry, kept: Handles, lost: set<WatchKey>, key: string, want: Slot): set<WatchKey> {
    if key in kept && NewKey(key, want) !in r0 then lost + {NewKey(key, want)} else lost
  }

  /** The facts of ReplaceStarts, on their own. */
  ghost predicate Starts(r0: Registry, r: Registry, r': Registry, k: WatchKey, n: nat, known: bool) {
    && k in r' && (k in r <==> k in r0 || known) && (k in r ==> r'[k] == r[k]) && (k !in r ==> r'[k] == n)
    && (forall j :: j in r' && j !in r0 && j != k ==> j in r && r'[j] == r[j])
    && (forall j :: j in r && j !in r0 ==> j in r' && r'[j] == r[j])
  }

  lemma ReplaceStarted(c: Handles, r0: Registry, n0: nat, n: nat, want: Slot, r: Registry, r': Registry,
                       kept: Handles, lost: set<WatchKey>, key: string)
    requires NewOk(c, r0, n0, n, r, kept, want, lost) && !Keeps(c, key, want.values)
    requires Starts(r0, r, r', NewKey(key, want), n, key in kept) && forall k :: k in r && k !in r0 ==> r[k] < n
    ensures StartedOk(c, r0, n0, n + 1, r', kept[key := Handle(n, key, want)], want, Forgetting(r0, kept, lost, key, want))
  {
    hide OwnPath, Keeps;
  }

  lemma ReplaceOwnPath(c: Handles, r0: Registry, n0: nat, n: nat, want: Slot, r: Registry, r': Registry,
                       kept: Handles, lost: set<WatchKey>, key: string)
    requires NewOk(c, r0, n0, n, r, kept, want, lost) && Starts(r0, r, r', NewKey(key, want), n, key in kept)
    requires forall p :: p in kept ==> kept[p].id < n
    ensures OwnPath(r0, r', kept[key := Handle(n, key, want)])
  {
    hide Keeps;
  }

  lemma ReplaceNew(c: Handles, r0: Registry, n0: nat, want: Slot, r: Registry, n: nat, kept: Handles,
                   lost: set<WatchKey>, key: string)
    requires HandlesOk(c, r0, n0) && Renewed(c, r0, n0, want, r, n, kept, lost) && !Keeps(c, key, want.values)
    ensures NewOk(c, r0, n0, n + 1, Replacing(c, r, key, want, n), kept[key := Handle(n, key, want)], want,
                  Forgetting(r0, kept, lost, key, want))
  {
    hide Replacing, HandlesOk, OldOk, KeptOk, StartedOk, OwnPath, Keeps;
    ReplaceStarts(c, r0, n0, n, want, r, kept, lost, key);
    RenewedIds(c, r0, n0, want, r, n, kept, lost);
    var r' := Replacing(c, r, key, want, n);
    ReplaceStarted(c, r0, n0, n, want, r, r', kept, lost, key);
    ReplaceOwnPath(c, r0, n0, n, want, r, r', kept, lost, key);
  }

  lemma RenewedIds(c: Handles, r0: Registry, n0: nat, want: Slot, r: Registry, n: nat, kept: Handles,
                   lost: set<WatchKey>)
    requires Renewed(c, r0, n0, want, r, n, kept, lost)
    ensures n0 <= n && (forall p :: p in kept ==> kept[p].id < n) && (forall k :: k in r && k !in r0 ==> n0 <= r[k] < n)
  {
  }

  lemma RenewedBounds(c: Handles, r0: Registry, n0: nat, want: Slot, r: Registry, n: nat, kept: Handles,
                      lost: set<WatchKey>)
    requires HandlesOk(c, r0, n0) && Renewed(c, r0, n0, want, r, n, kept, lost)
    ensures forall k :: k in r ==> r[k] < n
  {
    forall k | k in r ensures r[k] < n {
      if k in r0 { assert r[k] == r0[k] < n0 <= n; }
    }
  }

  lemma StillRunning(c: Handles, r0: Registry, r: Registry, r': Registry, done: set<string>, want: Slot, n: nat,
                     key: string, p: string)
    requires OldOk(c, r0, r, done, want.values) && OldOk(c, r0, r', done + {key}, want.values)
    requires Starts(r0, r, r', NewKey(key, want), n, key in done)
    requires p != key && NewKey(p, want) in r
    ensures NewKey(p, want) in r'
  {
    var k := NewKey(p, want);
    if k in r0 { assert Dropped(c, r0, done + {key}, want.values, k) <==> Dropped(c, r0, done, want.values, k); }
  }

  lemma ReplaceKept(c: Handles, r0: Registry, n0: nat, want: Slot, r: Registry, n: nat, kept: Handles,
                    lost: set<WatchKey>, key: string)
    requires HandlesOk(c, r0, n0) && Renewed(c, r0, n0, want, r, n, kept, lost) && !Keeps(c, key, want.values)
    ensures KeptOk(c, n0, n + 1, Replacing(c, r, key, want, n), kept[key := Handle(n, key, want)], want)
  {
    hide Replacing, HandlesOk, OldOk, StartedOk, OwnPath, Keeps;
    RenewedIds(c, r0, n0, want, r, n, kept, lost);
    ReplaceStarts(c, r0, n0, n, want, r, kept, lost, key);
    ReplaceOld(c, r0, n0, want, r, kept.Keys, key, n);
    var r' := Replacing(c, r, key, want, n);
    forall p | p in kept && p != key && !Keeps(c, p, want.values) ensures NewKey(p, want) in r' {
      StillRunning(c, r0, r, r', kept.Keys, want, n, key, p);
    }
  }

  lemma ReplaceStep(c: Handles, r0: Registry, n0: nat, want: Slot, r: Registry, n: nat, kept: Handles,
                    lost: set<WatchKey>, key: string)
    requires HandlesOk(c, r0, n0) && Renewed(c, r0, n0, want, r, n, kept, lost) && !Keeps(c, key, want.values)
    ensures Renewed(c, r0, n0, want, Replacing(c, r, key, want, n), n + 1, kept[key := Handle(n, key, want)],
                    Forgetting(r0, kept, lost, key, want))
  {
    ReplaceNew(c, r0, n0, want, r, n, kept, lost, key);
    ReplaceKept(c, r0, n0, want, r, n, kept, lost, key);
    ReplaceOld(c, r0, n0, want, r, kept.Keys, key, n);
    assert kept[key := Handle(n, key, want)].Keys == kept.Keys + {key};
  }

  // ---- At the end of an update ----

  /** What is left when the handles of paths no longer wanted, but for the `rest`, are cancelled. */
  function SweptBut(c: Handles, kept: Handles, rest: set<string>, r: Registry): Registry {
    map k | k in r && !(k.path in c && k.path !in kept && k.path !in rest && r[k] == c[k.path].id) :: r[k]
  }

  function Swept(c: Handles, kept: Handles, r: Registry): Registry { SweptBut(c, kept, {}, r) }

  lemma SweepStep(c: Handles, kept: Handles, rest: set<string>, r: Registry, key: string)
    requires key in c && key in rest && c[key].path == key && OnlyOwn(c, r)
    ensures SweptBut(c, kept, rest - {key}, r) ==
      if key in kept then SweptBut(c, kept, rest, r) else Cancelled(SweptBut(c, kept, rest, r), c[key])
  {
    var now := SweptBut(c, kept, rest, r);
    var next := if key in kept then now else Cancelled(now, c[key]);
    forall k ensures k in SweptBut(c, kept, rest - {key}, r) <==> k in next {
      if k in r && k.path == key && r[k] == c[key].id { assert k == KeyOf(c[key]); }
    }
  }

  lemma OldHandlesOnlyOwn(c: Handles, r0: Registry, n0: nat, want: Slot, r: Registry, n: nat, kept: Handles,
                          lost: set<WatchKey>)
    requires HandlesOk(c, r0, n0) && Renewed(c, r0, n0, want, r, n, kept, lost)
    ensures OnlyOwn(c, r)
  {
  }

  lemma HandlesOkAfter(c: Handles, r0: Registry, n0: nat, want: Slot, r: Registry, n: nat, kept: Handles,
                       lost: set<WatchKey>)
    requires HandlesOk(c, r0, n0) && Renewed(c, r0, n0, want, r, n, kept, lost)
    ensures HandlesOk(kept, Swept(c, kept, r), n)
  {
    var r' := Swept(c, kept, r);
    forall p | p in kept ensures KeyOf(kept[p]) in r' {
      var k := KeyOf(kept[p]);
      if Keeps(c, p, want.values) { assert k in r0 && !Dropped(c, r0, kept.Keys, want.values, k); }
    }
    forall k | k in r' ensures r'[k] < n {
    }
    forall p, k | p in kept && k in r' && r'[k] == kept[p].id ensures k == KeyOf(kept[p]) {
    }
  }

  lemma LostAfter(c: Handles, r0: Registry, n0: nat, want: Slot, r: Registry, n: nat, kept: Handles,
                  lost: set<WatchKey>)
    requires HandlesOk(c, r0, n0) && Renewed(c, r0, n0, want, r, n, kept, lost)
    ensures LostOf(kept, Swept(c, kept, r)) == LostOf(c, r0) + lost
  {
    var r' := Swept(c, kept, r);
    forall k | k in r0 ensures k in LostOf(kept, r') <==> k in LostOf(c, r0) {
      OldLost(c, r0, n0, want, r, n, kept, lost, k);
    }
    forall k | k !in r0 ensures k in LostOf(kept, r') <==> k in lost {
      if k in r { assert k.path in kept; }
    }
  }

  lemma OldLost(c: Handles, r0: Registry, n0: nat, want: Slot, r: Registry, n: nat, kept: Handles,
                lost: set<WatchKey>, k: WatchKey)
    requires HandlesOk(c, r0, n0) && Renewed(c, r0, n0, want, r, n, kept, lost) && k in r0
    ensures k in LostOf(kept, Swept(c, kept, r)) <==> k in LostOf(c, r0)
  {
    hide NewOk;
    assert k in r <==> !Dropped(c, r0, kept.Keys, want.values, k);
    if k.path in kept { assert Keeps(c, k.path, want.values) || kept[k.path].id >= n0; }
  }

  /** A handle is remembered, where as many agents are asked for as before, and its watcher goes
      on; otherwise its watcher has ended, if it was the handle's own. */
  ghost predicate HandedOver(c: Handles, r: Registry, after: Handles, r': Registry) {
    forall p :: p in c ==>
      if p in after && after[p].slot.values == c[p].slot.values
      then after[p] == c[p] && KeyOf(c[p]) in r' && (KeyOf(c[p]) in r ==> r'[KeyOf(c[p])] == r[KeyOf(c[p])])
      else KeyOf(c[p]) in r' <==> !Owns(r, c[p])
  }

  lemma HandedOverAfter(c: Handles, r0: Registry, n0: nat, want: Slot, r: Registry, n: nat, kept: Handles,
                        lost: set<WatchKey>)
    requires HandlesOk(c, r0, n0) && Renewed(c, r0, n0, want, r, n, kept, lost)
    ensures HandedOver(c, r0, kept, Swept(c, kept, r))
  {
    hide NewOk;
    forall p | p in c ensures KeyOf(c[p]) in r0 && KeyOf(c[p]).path == p {
    }
  }

  lemma PlanAfter(c: Handles, n0: nat, n: nat, r: Registry, kept: Handles, check: Check, matched: seq<string>)
    requires KeptOk(c, n0, n, r, kept, Wanted(check, matched)) && (check.proxied ==> matched != [])
    requires kept.Keys == set p | p in Paths(check.namespace, check.subscriptions)
    ensures SlotsOf(kept) == Plan(SlotsOf(c), check, matched)
  {
    hide Wanted, Paths;
    var plan, want := Plan(SlotsOf(c), check, matched), Wanted(check, matched);
    assert plan.Keys == kept.Keys;
    forall p | p in kept ensures plan[p] == kept[p].slot {
      assert Retained(SlotsOf(c), p, want.values) <==> Keeps(c, p, want.values);
    }
  }

  /** There is a handle for exactly the subscriptions of the check, each asks for the given number
      of agents, and each has a watcher of that kind behind it. */
  ghost predicate Covering(c: Handles, r: Registry, check: Check, values: nat) {
    && (forall p :: p in c <==> Subscribed(check, p))
    && (forall p :: p in c ==> c[p].slot.values == values && WatchKey(p, values, c[p].slot.interval) in r)
  }

  ghost predicate Subscribed(check: Check, p: string) {
    exists s :: s in check.subscriptions && p == Keys.RingPath(check.namespace, s)
  }

  /** A handle that asked for the right number of agents already goes on as it was; any other runs
      with the interval of the check and the entities matched now. */
  ghost predicate SetUp(c: Handles, after: Handles, check: Check, matched: seq<string>) {
    forall p :: p in after ==>
      if Keeps(c, p, if check.proxied then |matched| else 1) then after[p].slot == c[p].slot
      else after[p].slot.interval == check.interval && after[p].slot.proxies == if check.proxied then matched else []
  }

  lemma SetUpAfter(c: Handles, after: Handles, check: Check, matched: seq<string>)
    requires SlotsOf(after) == Plan(SlotsOf(c), check, matched) && !(check.proxied && matched == [])
    ensures SetUp(c, after, check, matched)
  {
    hide Paths, Plan;
    forall p | p in after
      ensures if Keeps(c, p, if check.proxied then |matched| else 1) then after[p].slot == c[p].slot
              else after[p].slot.interval == check.interval && after[p].slot.proxies == if check.proxied then matched else []
    {
      PlanAt(SlotsOf(c), Update(check, matched), p);
      assert p in SlotsOf(after) && SlotsOf(after)[p] == after[p].slot;
      assert p in c <==> p in SlotsOf(c);
    }
  }

  lemma CoveringAfter(c: Handles, after: Handles, r: Registry, n: nat, check: Check, matched: seq<string>)
    requires SlotsOf(after) == Plan(SlotsOf(c), check, matched) && !(check.proxied && matched == [])
    requires HandlesOk(after, r, n)
    ensures Covering(after, r, check, if check.proxied then |matched| else 1)
  {
    hide Paths, OnlyOwn, Plan;
    forall p ensures p in after <==> Subscribed(check, p) {
      PlanAt(SlotsOf(c), Update(check, matched), p);
      PathOf(check.namespace, check.subscriptions, p);
      assert p in after <==> p in SlotsOf(after);
    }
    forall p | p in after ensures after[p].slot.values == (if check.proxied then |matched| else 1) && KeyOf(after[p]) in r {
      PlanAt(SlotsOf(c), Update(check, matched), p);
      assert p in SlotsOf(after) && SlotsOf(after)[p] == after[p].slot;
    }
  }

  /** With nothing lost, the watchers running are one for each handle. */
  lemma NothingLostMeans(c: Handles, r: Registry, n: nat)
    requires HandlesOk(c, r, n)
    ensures LostOf(c, r) == {} ==> r.Keys == set p | p in c :: KeyOf(c[p])
  {
    if LostOf(c, r) == {} {
      forall k | k in r ensures k.path in c && k == KeyOf(c[k.path]) {
        assert k !in LostOf(c, r);
      }
    }
  }

  // ---- The scheduler ----

  class RoundRobinIntervalScheduler {
    var check: Check
    var lastInterval: nat
    var lastSubscriptions: seq<string>
    var cancels: Handles
    // the check's watchers on the rings
    var registry: Registry
    var nextId: nat
    // the updates so far
    ghost var updates: seq<Update>

    /** The handles are those the updates lead to; a watcher is lost if and only if one of the
        updates that took effect set up a path twice. */
    ghost predicate Valid()
      reads this
    {
      && HandlesOk(cancels, registry, nextId) && SlotsOf(cancels) == Updates(updates)
      && (LostOf(cancels, registry) == {} <==> Clean(updates))
    }

    ghost function Lost(): set<WatchKey>
      reads this
    {
      LostOf(cancels, registry)
    }

    constructor (check: Check)
      ensures Valid() && this.check == check && cancels == map[] && registry == map[] && updates == []
      ensures lastInterval == check.interval && lastSubscriptions == []
    {
      this.check := check;
      lastInterval := check.interval;
      lastSubscriptions := [];
      cancels := map[];
      registry := map[];
      nextId := 0;
      updates := [];
    }

    /** A new context, and the ring's watcher for it: the one it has already, or a new one. */
    method Watch(path: string, slot: Slot) returns (h: Handle)
      requires forall k :: k in registry ==> registry[k] < nextId
      modifies this`registry, this`nextId
      ensures h == Handle(old(nextId), path, slot) && nextId == old(nextId) + 1
      ensures KeyOf(h) in registry && (Owns(registry, h) <==> KeyOf(h) !in old(registry))
      ensures forall k :: k in old(registry) ==> k in registry && registry[k] == old(registry)[k]
      ensures forall k :: k in registry && k != KeyOf(h) ==> k in old(registry)
      ensures registry == Watched(old(registry), NewKey(path, slot), old(nextId))
    {
      h := Handle(nextId, path, slot);
      nextId := nextId + 1;
      if NewKey(path, slot) !in registry {
        registry := registry[NewKey(path, slot) := h.id];
      }
    }

    /** Ends the watcher that was started with the handle's context, if there is one. */
    method Cancel(h: Handle)
      modifies this`registry
      ensures registry == Cancelled(old(registry), h)
    {
      if KeyOf(h) in registry && registry[KeyOf(h)] == h.id {
        registry := registry - {KeyOf(h)};
      }
    }

    /** One handle per path: the old one if it asks for the right number, or else a new one. */
    method Renew(paths: seq<string>, want: Slot) returns (kept: Handles, ghost lost: set<WatchKey>)
      requires HandlesOk(cancels, registry, nextId)
      modifies this`registry, this`nextId
      ensures kept.Keys == set p | p in paths
      ensures Renewed(cancels, old(registry), old(nextId), want, registry, nextId, kept, lost)
      ensures lost == Losing(cancels, old(registry), paths, want)
    {
      hide Renewed, HandlesOk, Replacing;
      kept, lost := map[], {};
      RenewedAtFirst(cancels, registry, nextId, want);
      for i := 0 to |paths|
        invariant kept.Keys == set p | p in paths[..i]
        invariant Renewed(cancels, old(registry), old(nextId), want, registry, nextId, kept, lost)
        invariant lost == Losing(cancels, old(registry), paths[..i], want)
      {
        var key := paths[i];
        assert paths[..i + 1][..i] == paths[..i];
        if key in cancels && cancels[key].slot.values == want.values {
          RetainStep(cancels, old(registry), old(nextId), want, registry, nextId, kept, lost, key);
          kept := kept[key := cancels[key]];
        } else {
          ReplaceStep(cancels, old(registry), old(nextId), want, registry, nextId, kept, lost, key);
          ghost var r := Replacing(cancels, registry, key, want, nextId);
          RenewedBounds(cancels, old(registry), old(nextId), want, registry, nextId, kept, lost);
          lost := Forgetting(old(registry), kept, lost, key, want);
          var h := Replace(key, want);
          assert registry == r;
          kept := kept[key := h];
        }
      }
      assert paths[..|paths|] == paths;
    }

    method Replace(key: string, want: Slot) returns (h: Handle)
      requires forall k :: k in registry ==> registry[k] < nextId
      modifies this`registry, this`nextId
      ensures h == Handle(old(nextId), key, want) && nextId == old(nextId) + 1
      ensures registry == Replacing(cancels, old(registry), key, want, old(nextId))
    {
      if key in cancels {
        Cancel(cancels[key]);
      }
      h := Watch(key, want);
    }

    /** Cancels the handles whose path is no longer wanted. */
    method Sweep(kept: Handles)
      requires OnlyOwn(cancels, registry) && forall p :: p in cancels ==> cancels[p].path == p
      modifies this`registry
      ensures registry == Swept(cancels, kept, old(registry))
    {
      hide SweptBut, Cancelled, OnlyOwn;
      var rest := cancels.Keys;
      SweepNothing(cancels, kept, registry);
      while rest != {}
        invariant rest <= cancels.Keys
        invariant registry == SweptBut(cancels, kept, rest, old(registry))
      {
        var key :| key in rest;
        SweepStep(cancels, kept, rest, old(registry), key);
        if key !in kept {
          Cancel(cancels[key]);
        }
        rest := rest - {key};
      }
    }

    /** The handles become the planned ones, one for each subscription of the check and asking for
        one agent per matched entity, and each has a watcher behind it. What has been retained goes
        on; what has not ends, if its handle can end it. A watcher that is lost stays so. */
    method UpdateRings(matched: seq<string>)
      requires Valid()
      modifies this`cancels, this`registry, this`nextId, this`updates
      ensures Valid() && updates == old(updates) + [Update(check, matched)]
      ensures SlotsOf(cancels) == Plan(SlotsOf(old(cancels)), check, matched)
      ensures !(check.proxied && matched == []) ==> Covering(cancels, registry, check, if check.proxied then |matched| else 1)
      ensures !(check.proxied && matched == []) ==> SetUp(old(cancels), cancels, check, matched)
      ensures HandedOver(old(cancels), old(registry), cancels, registry)
      ensures Lost() == old(Lost()) + if check.proxied && matched == [] then {}
        else Losing(old(cancels), old(registry), Paths(check.namespace, check.subscriptions), Wanted(check, matched))
      ensures Clean(updates) ==> registry.Keys == set p | p in cancels :: KeyOf(cancels[p])
    {
      hide LostOf, Losing, SlotsOf, Clean, HandlesOk, HandedOver, SetUp, Plan, Paths, Wanted;
      UpdateHandles(matched);
      NothingLostMeans(cancels, registry, nextId);
      if !(check.proxied && matched == []) {
        CoveringAfter(old(cancels), cancels, registry, nextId, check, matched);
        SetUpAfter(old(cancels), cancels, check, matched);
      }
    }

    method UpdateHandles(matched: seq<string>)
      requires Valid()
      modifies this`cancels, this`registry, this`nextId, this`updates
      ensures Valid() && updates == old(updates) + [Update(check, matched)]
      ensures SlotsOf(cancels) == Plan(SlotsOf(old(cancels)), check, matched)
      ensures HandedOver(old(cancels), old(registry), cancels, registry)
      ensures Lost() == old(Lost()) + if check.proxied && matched == [] then {}
        else Losing(old(cancels), old(registry), Paths(check.namespace, check.subscriptions), Wanted(check, matched))
    {
      hide LostOf, KeptOk, OldOk, NewOk, Swept, Paths, Losing, SlotsOf, Wanted, Clean, NoRepeats, HandlesOk, HandedOver, OnlyOwn;
      ghost var u := Update(check, matched);
      CleanSnoc(updates, u);
      UpdatesSnoc(updates, u);
      if check.proxied && matched == [] {
        updates := updates + [u];
        HandedOverSame(cancels, registry, nextId);
        return;
      }
      var paths, want := Paths(check.namespace, check.subscriptions), Wanted(check, matched);
      if LostOf(cancels, registry) == {} { NoRepeatsExactly(cancels, registry, nextId, paths, want); }
      var kept, lost := Renew(paths, want);
      OldHandlesOnlyOwn(cancels, old(registry), old(nextId), want, registry, nextId, kept, lost);
      HandlesOkAfter(cancels, old(registry), old(nextId), want, registry, nextId, kept, lost);
      LostAfter(cancels, old(registry), old(nextId), want, registry, nextId, kept, lost);
      HandedOverAfter(cancels, old(registry), old(nextId), want, registry, nextId, kept, lost);
      PlanAfter(cancels, old(nextId), nextId, registry, kept, check, matched);
      HandlePaths(cancels, old(registry), old(nextId));
      Sweep(kept);
      cancels := kept;
      updates := updates + [u];
    }

    method Start(matched: seq<string>)
      requires Valid()
      modifies this
      ensures Valid() && check == old(check) && lastInterval == check.interval
      ensures lastSubscriptions == check.subscriptions
      ensures updates == old(updates) + [Update(check, matched)]
    {
      lastInterval, lastSubscriptions := check.interval, check.subscriptions;
      UpdateRings(matched);
    }

    /** A changed check: the rings are looked at only if the interval or the subscriptions changed. */
    method Interrupt(update: Check, matched: seq<string>)
      requires Valid()
      modifies this
      ensures Valid() && check == update && lastInterval == update.interval && lastSubscriptions == update.subscriptions
      ensures if old(lastInterval) != update.interval || old(lastSubscriptions) != update.subscriptions
        then updates == old(updates) + [Update(update, matched)]
        else updates == old(updates) && cancels == old(cancels) && registry == old(registry)
    {
      check := update;
      var changed := lastInterval != check.interval || lastSubscriptions != check.subscriptions;
      lastInterval, lastSubscriptions := check.interval, check.subscriptions;
      if changed {
        UpdateRings(matched);
      }
    }

    /** Changed entities matter to checks with proxies only. */
    method EntitiesChanged(matched: seq<string>)
      requires Valid()
      modifies this`cancels, this`registry, this`nextId, this`updates
      ensures Valid()
      ensures if check.proxied then updates == old(updates) + [Update(check, matched)]
        else updates == old(updates) && cancels == old(cancels) && registry == old(registry)
    {
      if check.proxied {
        UpdateRings(matched);
      }
    }
  }

  lemma SweepNothing(c: Handles, kept: Handles, r: Registry)
    ensures SweptBut(c, kept, c.Keys, r) == r
  {
  }

  lemma HandlePaths(c: Handles, r: Registry, n: nat)
    requires HandlesOk(c, r, n)
    ensures forall p :: p in c ==> c[p].path == p
  {
  }

  lemma HandedOverSame(c: Handles, r: Registry, n: nat)
    requires HandlesOk(c, r, n)
    ensures HandedOver(c, r, c, r)
  {
  }

  lemma UpdatesSnoc(updates: seq<Update>, u: Update)
    ensures Updates(updates + [u]) == Plan(Updates(updates), u.check, u.matched)
  {
    assert (updates + [u])[..|updates|] == updates;
  }
}
