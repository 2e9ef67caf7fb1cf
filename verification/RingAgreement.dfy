/** What the watchers of one trigger hand out while the items of the ring stay the same: the
    same values for the same expiry, in every interleaving. */
module RingAgreement {
  import opened Etcd
  import opened RingSelection
  import opened RingProtocol

  /** Every state of the run, first and last included, has the items `items`. */
  ghost predicate Stable(values: nat, s: State, steps: seq<Step>, items: seq<string>)
    decreases |steps|
  {
    Items(s.store) == items && (steps == [] || Stable(values, Next(values, s, steps[0]), steps[1..], items))
  }

  // ---- Agreement ----

  /** The reads of a watcher so far lead to what one undisturbed read would have returned. */
  ghost predicate PhaseAgrees(values: nat, items: seq<string>, p: string, phase: Phase) {
    var n := values + 1;
    match phase
    case Restart => ReadFrom(items, p, n) == []
    case Fill(got) => got != [] && |got| < n && got + Take(items, n - |got|) == NextInRing(items, Some(p), n)
    case Selected(found) => found == NextInRing(items, Some(p), n)
    case Granted(found, _) => found == NextInRing(items, Some(p), n)
    case Releasing(found, _) => found == NextInRing(items, Some(p), n)
    case _ => true
  }

  predicate Working(p: Phase) {
    p.Restart? || p.Fill? || p.Selected? || p.Granted? || p.Releasing?
  }

  /** Position `i` of the log is the deletion of a trigger that held `p`. */
  ghost predicate Deletes(log: seq<Event<string>>, i: nat, p: string) {
    i < |log| && log[i].Delete? && log[i].last.value == p
  }

  ghost predicate DeliveryAgrees(values: nat, items: seq<string>, log: seq<Event<string>>, d: Delivery) {
    items != [] && exists p :: Deletes(log, d.event, p) && d.values == Window(items, p, values)
  }

  ghost predicate WatcherAgrees(values: nat, items: seq<string>, log: seq<Event<string>>, w: Watcher) {
    && (Working(w.phase) ==> exists p :: Deletes(log, w.seen, p) && PhaseAgrees(values, items, p, w.phase))
    && (w.phase.Ensuring? || w.phase.EnsureGranted? ==> items != [] && w.phase.first == items[0])
    && (forall i :: 0 <= i < |w.delivered| ==> DeliveryAgrees(values, items, log, w.delivered[i]))
  }

  ghost predicate Agree(values: nat, items: seq<string>, s: State) {
    forall w :: w in s.watchers ==> WatcherAgrees(values, items, TriggerLog(s.store), s.watchers[w])
  }

  lemma LogGrows(values: nat, s: State, step: Step)
    requires Safe(s)
    ensures TriggerLog(s.store) <= TriggerLog(Next(values, s, step).store)
  {
    match step
    case Expire(lease) => EndLeaseLog(s.store, lease, Trigger);
    case Revoke(w) =>
      if w in s.watchers { EndLeaseLog(s.store, Held(s.watchers[w].phase), Trigger); }
    case _ =>
  }

  lemma WatcherAgreesLonger(values: nat, items: seq<string>, log: seq<Event<string>>, log': seq<Event<string>>,
                            w: Watcher)
    requires WatcherAgrees(values, items, log, w) && log <= log'
    ensures WatcherAgrees(values, items, log', w)
  {
    hide Window, PhaseAgrees;
    if Working(w.phase) {
      var p :| Deletes(log, w.seen, p) && PhaseAgrees(values, items, p, w.phase);
      assert Deletes(log', w.seen, p);
    }
    forall i | 0 <= i < |w.delivered| ensures DeliveryAgrees(values, items, log', w.delivered[i]) {
      var d := w.delivered[i];
      assert DeliveryAgrees(values, items, log, d);
      var p :| Deletes(log, d.event, p) && d.values == Window(items, p, values);
      assert Deletes(log', d.event, p);
    }
  }

  lemma ReadPhaseAgrees(values: nat, items: seq<string>, log: seq<Event<string>>, w: Watcher, p: string)
    requires Deletes(log, w.seen, p)
    requires w.phase.Idle? || (Working(w.phase) && PhaseAgrees(values, items, p, w.phase))
    ensures var w' := ReadStep(w, log, items, values);
      Working(w'.phase) ==> w'.seen == w.seen && PhaseAgrees(values, items, p, w'.phase)
  {
    if ReadFrom(items, p, values + 1) == [] {
      assert NextInRing(items, Some(p), values + 1) == NextInRing(items, None, values + 1);
    }
    hide ReadFrom;
  }

  lemma ReadAgrees(values: nat, items: seq<string>, log: seq<Event<string>>, w: Watcher)
    requires WatcherAgrees(values, items, log, w)
    ensures WatcherAgrees(values, items, log, ReadStep(w, log, items, values))
  {
    hide PhaseAgrees, DeliveryAgrees;
    var w' := ReadStep(w, log, items, values);
    assert w'.delivered == w.delivered;
    if Working(w'.phase) {
      if w.phase.Idle? {
        var p := log[w.seen].last.value;
        assert Deletes(log, w.seen, p);
        ReadPhaseAgrees(values, items, log, w, p);
      } else {
        var p :| Deletes(log, w.seen, p) && PhaseAgrees(values, items, p, w.phase);
        ReadPhaseAgrees(values, items, log, w, p);
      }
    }
  }

  lemma DeliverAgrees(values: nat, items: seq<string>, log: seq<Event<string>>, w: Watcher, found: seq<string>)
    requires items != [] && WatcherAgrees(values, items, log, w)
    requires w.phase.Granted? || w.phase.Releasing?
    requires found == w.phase.found
    ensures WatcherAgrees(values, items, log, Deliver(w, found, values))
  {
    var p :| Deletes(log, w.seen, p) && PhaseAgrees(values, items, p, w.phase);
    AnswerAgrees(values, items, log, w.seen, p, found);
    hide NextInRing, Delivered, DeliveryAgrees;
  }

  lemma AnswerAgrees(values: nat, items: seq<string>, log: seq<Event<string>>, event: nat, p: string,
                     found: seq<string>)
    requires items != [] && Deletes(log, event, p) && found == NextInRing(items, Some(p), values + 1)
    ensures found != [] && DeliveryAgrees(values, items, log, Delivery(event, Delivered(found, values)))
  {
    FoundNonEmpty(items, p, values + 1);
    hide NextInRing, Delivered;
    assert Delivered(found, values) == Window(items, p, values);
  }

  /** The watcher a step is about. */
  function Actor(step: Step): Option<nat> {
    match step
    case Join(w) => Some(w)
    case Read(w) => Some(w)
    case Check(w) => Some(w)
    case GrantLease(w) => Some(w)
    case Commit(w) => Some(w)
    case Revoke(w) => Some(w)
    case _ => None
  }

  lemma ActorAgrees(values: nat, items: seq<string>, s: State, step: Step, w: nat)
    requires Safe(s) && items != [] && Items(s.store) == items
    requires Actor(step) == Some(w) && w in s.watchers
    requires WatcherAgrees(values, items, TriggerLog(s.store), s.watchers[w])
    ensures w in Next(values, s, step).watchers
    ensures WatcherAgrees(values, items, TriggerLog(s.store), Next(values, s, step).watchers[w])
  {
    hide PhaseAgrees, DeliveryAgrees, Safe;
    var x, log := s.watchers[w], TriggerLog(s.store);
    match step
    case Read(_) => ReadAgrees(values, items, log, x);
    case GrantLease(_) => GrantAgrees(values, items, log, x, s.store.nextLease);
    case Commit(_) =>
      if Attempt(x.phase, values).Some? { CommitAgrees(values, items, log, x, CreateOutcome(s.store, Trigger, Held(x.phase))); }
    case Revoke(_) =>
      if x.phase.Releasing? { DeliverAgrees(values, items, log, x, x.phase.found); }
    case _ =>
  }

  lemma GrantAgrees(values: nat, items: seq<string>, log: seq<Event<string>>, w: Watcher, lease: nat)
    requires WatcherAgrees(values, items, log, w)
    ensures GrantStep(w, lease).Some? ==> WatcherAgrees(values, items, log, GrantStep(w, lease).value)
  {
    hide NextInRing, DeliveryAgrees;
    if w.phase.Selected? {
      var p :| Deletes(log, w.seen, p) && PhaseAgrees(values, items, p, w.phase);
      assert PhaseAgrees(values, items, p, GrantStep(w, lease).value.phase);
    }
  }

  lemma CommitAgrees(values: nat, items: seq<string>, log: seq<Event<string>>, w: Watcher, outcome: Outcome)
    requires items != [] && WatcherAgrees(values, items, log, w)
    ensures WatcherAgrees(values, items, log, AfterCommit(w, outcome, values))
  {
    hide NextInRing, DeliveryAgrees;
    if w.phase.Granted? {
      if outcome.Committed? {
        DeliverAgrees(values, items, log, w, w.phase.found);
      } else if outcome.Refused? {
        var p :| Deletes(log, w.seen, p) && PhaseAgrees(values, items, p, w.phase);
        assert PhaseAgrees(values, items, p, AfterCommit(w, outcome, values).phase);
      }
    }
  }

  lemma NextAgrees(values: nat, items: seq<string>, s: State, step: Step)
    requires Safe(s) && items != [] && Items(s.store) == items && Agree(values, items, s)
    ensures Agree(values, items, Next(values, s, step))
  {
    hide Safe, WatcherAgrees;
    var s' := Next(values, s, step);
    LogGrows(values, s, step);
    forall w | w in s'.watchers ensures WatcherAgrees(values, items, TriggerLog(s'.store), s'.watchers[w]) {
      if Actor(step) == Some(w) {
        if w in s.watchers {
          ActorAgrees(values, items, s, step, w);
        } else {
          NewcomerAgrees(values, items, TriggerLog(s.store), s'.watchers[w]);
        }
      } else {
        assert s'.watchers[w] == s.watchers[w];
      }
      WatcherAgreesLonger(values, items, TriggerLog(s.store), TriggerLog(s'.store), s'.watchers[w]);
    }
  }

  lemma NewcomerAgrees(values: nat, items: seq<string>, log: seq<Event<string>>, w: Watcher)
    requires w.phase.Idle? && w.delivered == []
    ensures WatcherAgrees(values, items, log, w)
  {
  }

  lemma {:induction false} ExecAgrees(values: nat, items: seq<string>, s: State, steps: seq<Step>)
    requires Safe(s) && items != [] && Agree(values, items, s) && Stable(values, s, steps, items)
    ensures Agree(values, items, Exec(values, s, steps))
    decreases |steps|
  {
    hide Safe, Agree;
    if steps != [] {
      NextSafe(values, s, steps[0]);
      NextAgrees(values, items, s, steps[0]);
      ExecAgrees(values, items, Next(values, s, steps[0]), steps[1..]);
    }
  }

  /** On a ring whose items do not change, whatever a watcher hands out for a deletion is the
      window from the deleted trigger's value; so any two watchers answering the same deletion
      hand out the same values. */
  lemma SameExpirySameValues(values: nat, items: seq<string>, s: State, steps: seq<Step>, v: nat, w: nat, i: nat,
                             j: nat)
    requires Init(s) && items != [] && Stable(values, s, steps, items)
    requires var t := Exec(values, s, steps);
      && v in t.watchers && i < |t.watchers[v].delivered|
      && w in t.watchers && j < |t.watchers[w].delivered|
      && t.watchers[v].delivered[i].event == t.watchers[w].delivered[j].event
    ensures var t := Exec(values, s, steps);
      t.watchers[v].delivered[i].values == t.watchers[w].delivered[j].values
    ensures var t := Exec(values, s, steps); DeliveryAgrees(values, items, TriggerLog(t.store), t.watchers[v].delivered[i])
  {
    hide Exec, Window;
    ExecAgrees(values, items, s, steps);
    var t := Exec(values, s, steps);
    var log := TriggerLog(t.store);
    assert WatcherAgrees(values, items, log, t.watchers[v]) && WatcherAgrees(values, items, log, t.watchers[w]);
    assert DeliveryAgrees(values, items, log, t.watchers[v].delivered[i]);
    assert DeliveryAgrees(values, items, log, t.watchers[w].delivered[j]);
  }
}
