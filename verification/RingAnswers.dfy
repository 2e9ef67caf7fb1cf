/** Every expiry is answered once: no watcher skips a trigger deletion or answers it twice, and
    with that the fairness of the protocol needs no assumption about what was answered. */
module RingAnswers {
  import opened Etcd
  import opened RingSelection
  import opened RingProtocol
  import opened RingAgreement
  import opened RingProgress
  import opened RingSchedule
  import Circle

  /** In the middle of answering the deletion at `seen`. */
  predicate Busy(p: Phase) {
    p.Restart? || p.Fill? || p.Selected? || p.Granted? || p.Releasing? || p.Failing?
  }

  ghost predicate Notified(w: Watcher, e: nat) {
    exists a :: 0 <= a < |w.delivered| && w.delivered[a].event == e
  }

  ghost predicate InOrder(w: Watcher) {
    && (forall a :: 0 <= a < |w.delivered| ==> w.start <= w.delivered[a].event < w.seen)
    && (forall a, b :: 0 <= a < b < |w.delivered| ==> w.delivered[a].event < w.delivered[b].event)
  }

  /** The deletions a watcher is done with are those it has notified about, those it lost and
      those it found the ring empty for. */
  ghost predicate Answered(log: seq<Event<string>>, w: Watcher) {
    && w.start <= w.seen <= |log| && (Busy(w.phase) ==> w.seen < |log|)
    && InOrder(w)
    && (forall e :: w.start <= e < w.seen && log[e].Delete? ==> e in w.lost || e in w.idle || Notified(w, e))
    && (forall e :: e in w.lost ==> w.start <= e < w.seen && e !in w.idle && !Notified(w, e))
    && (forall e :: e in w.idle ==> w.start <= e < w.seen && !Notified(w, e))
  }

  ghost predicate AllAnswered(s: State) {
    forall w :: w in s.watchers ==> Answered(TriggerLog(s.store), s.watchers[w])
  }

  // ---- Steps of one watcher ----

  lemma AnsweredLonger(log: seq<Event<string>>, log': seq<Event<string>>, w: Watcher)
    requires Answered(log, w) && log <= log'
    ensures Answered(log', w)
  {
  }

  lemma PhaseAnswered(log: seq<Event<string>>, w: Watcher, p: Phase)
    requires Answered(log, w) && (Busy(p) ==> w.seen < |log|)
    ensures Answered(log, w.(phase := p))
  {
    var x := w.(phase := p);
    forall e ensures Notified(x, e) <==> Notified(w, e) {
    }
  }

  lemma PutAnswered(log: seq<Event<string>>, w: Watcher)
    requires Answered(log, w) && w.seen < |log| && log[w.seen].Put?
    ensures Answered(log, Handled(w))
  {
    var x := Handled(w);
    forall e ensures Notified(x, e) <==> Notified(w, e) {
    }
  }

  lemma LostAnswered(log: seq<Event<string>>, w: Watcher)
    requires Answered(log, w) && w.seen < |log|
    ensures Answered(log, Handled(w).(lost := w.lost + {w.seen}))
  {
    var x := Handled(w).(lost := w.lost + {w.seen});
    forall e ensures Notified(x, e) <==> Notified(w, e) {
    }
  }

  lemma IdleAnswered(log: seq<Event<string>>, w: Watcher)
    requires Answered(log, w) && w.seen < |log|
    ensures Answered(log, Handled(w).(idle := w.idle + {w.seen}))
  {
    var x := Handled(w).(idle := w.idle + {w.seen});
    forall e ensures Notified(x, e) <==> Notified(w, e) {
    }
  }

  lemma DeliverAnswered(log: seq<Event<string>>, w: Watcher, found: seq<string>, values: nat)
    requires Answered(log, w) && w.seen < |log| && found != [] && values > 0
    ensures Answered(log, Deliver(w, found, values))
  {
    hide Delivered;
    var x := Deliver(w, found, values);
    assert x.delivered[|w.delivered|].event == w.seen;
    forall e ensures Notified(x, e) <==> Notified(w, e) || e == w.seen {
      if Notified(w, e) {
        var a :| 0 <= a < |w.delivered| && w.delivered[a].event == e;
        assert x.delivered[a] == w.delivered[a];
      }
    }
  }

  lemma ReadAnswered(values: nat, items: seq<string>, log: seq<Event<string>>, w: Watcher)
    requires Answered(log, w)
    ensures Answered(log, ReadStep(w, log, items, values))
  {
    hide Answered, ReadFrom;
    if Busy(w.phase) { BusyBefore(log, w); }
    var x := ReadStep(w, log, items, values);
    if x.seen == w.seen {
      PhaseAnswered(log, w, x.phase);
    } else if w.phase.Idle? {
      PutAnswered(log, w);
    } else {
      IdleAnswered(log, w);
    }
  }

  lemma BusyBefore(log: seq<Event<string>>, w: Watcher)
    requires Answered(log, w) && Busy(w.phase)
    ensures w.seen < |log|
  {
  }

  lemma ActorAnswered(values: nat, s: State, step: Step, w: nat)
    requires values > 0 && Actor(step) == Some(w) && w in s.watchers
    requires HasFound(s.watchers[w].phase) && Answered(TriggerLog(s.store), s.watchers[w])
    ensures w in Next(values, s, step).watchers && Answered(TriggerLog(s.store), Next(values, s, step).watchers[w])
  {
    hide Answered, ReadStep, Delivered, Following, Items;
    var x, log := s.watchers[w], TriggerLog(s.store);
    var x' := Next(values, s, step).watchers[w];
    if Busy(x.phase) { BusyBefore(log, x); }
    if x.phase.Granted? || x.phase.Releasing? { DeliverAnswered(log, x, x.phase.found, values); }
    if step.Read? {
      ReadAnswered(values, Items(s.store), log, x);
    } else if step.Revoke? && x.phase.Failing? {
      LostAnswered(log, x);
    } else if x'.seen == x.seen {
      PhaseAnswered(log, x, x'.phase);
    }
  }

  lemma NewcomerAnswered(log: seq<Event<string>>)
    ensures Answered(log, Watcher(|log|, |log|, Idle, [], {}, {}))
  {
  }

  lemma NextAnswered(values: nat, s: State, step: Step)
    requires Safe(s) && values > 0 && AllHaveFound(s) && AllAnswered(s)
    ensures AllAnswered(Next(values, s, step))
  {
    hide Safe, Answered, HasFound;
    var s' := Next(values, s, step);
    LogGrows(values, s, step);
    forall w | w in s'.watchers ensures Answered(TriggerLog(s'.store), s'.watchers[w]) {
      if Actor(step) == Some(w) {
        if w in s.watchers {
          ActorAnswered(values, s, step, w);
        } else {
          NewcomerAnswered(TriggerLog(s.store));
        }
      } else {
        assert s'.watchers[w] == s.watchers[w];
      }
      AnsweredLonger(TriggerLog(s.store), TriggerLog(s'.store), s'.watchers[w]);
    }
  }

  lemma {:induction false} ExecAnswered(values: nat, s: State, steps: seq<Step>)
    requires Safe(s) && values > 0 && AllHaveFound(s) && AllAnswered(s)
    ensures AllAnswered(Exec(values, s, steps))
    decreases |steps|
  {
    hide Safe, AllHaveFound, AllAnswered, Next;
    if steps != [] {
      NextSafe(values, s, steps[0]);
      NextHasFound(values, s, steps[0]);
      NextAnswered(values, s, steps[0]);
      ExecAnswered(values, Next(values, s, steps[0]), steps[1..]);
    }
  }

  /** In every run, however the ring changes: a watcher notifies about every expiry it is done
      with exactly once, except for those it lost and those it found the ring empty for, about
      which it does not notify. */
  lemma EveryExpiryAnsweredOnce(values: nat, s: State, steps: seq<Step>, w: nat, e: nat)
    requires Init(s) && values > 0 && w in Exec(values, s, steps).watchers
    requires var x := Exec(values, s, steps).watchers[w];
      x.start <= e < x.seen <= |TriggerLog(Exec(values, s, steps).store)|
    requires TriggerLog(Exec(values, s, steps).store)[e].Delete?
    ensures var x := Exec(values, s, steps).watchers[w];
      && (Notified(x, e) <==> e !in x.lost && e !in x.idle) && x.lost !! x.idle
      && (forall a, b :: 0 <= a < b < |x.delivered| ==> x.delivered[a].event != x.delivered[b].event)
  {
    hide Exec;
    ExecAnswered(values, s, steps);
    var t := Exec(values, s, steps);
    assert Answered(TriggerLog(t.store), t.watchers[w]);
  }

  // ---- An empty ring ----

  /** A step makes a watcher give up an expiry as one with nothing to hand out only if that is the
      watcher's own read and the ring is empty. */
  lemma IdleOnlyWhenEmpty(values: nat, s: State, w: nat, step: Step)
    requires w in s.watchers
    ensures var after := Next(values, s, step);
      && w in after.watchers
      && (after.watchers[w].idle != s.watchers[w].idle ==> step == Read(w) && Items(s.store) == [])
  {
    hide Delivered, Following, Items, ReadFrom;
  }

  lemma {:induction false} NeverIdle(values: nat, items: seq<string>, s: State, steps: seq<Step>)
    requires items != [] && Stable(values, s, steps, items) && forall w :: w in s.watchers ==> s.watchers[w].idle == {}
    ensures forall w :: w in Exec(values, s, steps).watchers ==> Exec(values, s, steps).watchers[w].idle == {}
    decreases |steps|
  {
    hide Items;
    if steps != [] {
      var t := Next(values, s, steps[0]);
      forall w | w in t.watchers ensures t.watchers[w].idle == {} {
        if w in s.watchers { IdleOnlyWhenEmpty(values, s, w, steps[0]); }
      }
      hide Next;
      NeverIdle(values, items, t, steps[1..]);
    }
  }

  // ---- What is lost ----

  ghost predicate FailuresJust(s: State) {
    forall w :: w in s.watchers && s.watchers[w].phase.Failing? ==> Held(s.watchers[w].phase) !in s.store.live
  }

  lemma NextFailuresJust(values: nat, s: State, step: Step)
    requires Safe(s) && FailuresJust(s)
    ensures FailuresJust(Next(values, s, step))
  {
    hide Items, Consistent, OnlyCreations, Delivered, Following, ReadFrom;
  }

  lemma {:induction false} ExecFailuresJust(values: nat, s: State, steps: seq<Step>)
    requires Safe(s) && FailuresJust(s)
    ensures FailuresJust(Exec(values, s, steps))
    decreases |steps|
  {
    hide Safe, FailuresJust, Next;
    if steps != [] {
      NextSafe(values, s, steps[0]);
      NextFailuresJust(values, s, steps[0]);
      ExecFailuresJust(values, Next(values, s, steps[0]), steps[1..]);
    }
  }

  /** In every run a step makes a watcher lose an expiry only if that is the watcher's own and the
      lease it was granted has ended; losing the race for the trigger is not enough. */
  lemma LosesOnlyWithItsLease(values: nat, s: State, steps: seq<Step>, w: nat, step: Step)
    requires Init(s) && w in Exec(values, s, steps).watchers
    ensures var t := Exec(values, s, steps); var after := Next(values, t, step);
      && w in after.watchers
      && (after.watchers[w].lost != t.watchers[w].lost ==> step == Revoke(w) && Held(t.watchers[w].phase) !in t.store.live)
  {
    ExecSafe(values, s, steps);
    ExecFailuresJust(values, s, steps);
    hide Exec, Safe, Next, FailuresJust;
    StepLoses(values, Exec(values, s, steps), w, step);
  }

  lemma StepLoses(values: nat, t: State, w: nat, step: Step)
    requires FailuresJust(t) && w in t.watchers
    ensures var after := Next(values, t, step);
      && w in after.watchers
      && (after.watchers[w].lost != t.watchers[w].lost ==> step == Revoke(w) && Held(t.watchers[w].phase) !in t.store.live)
  {
    hide Delivered, Following, Items, ReadFrom;
  }

  // ---- Fairness with nothing lost ----

  lemma NextAnswer(values: nat, items: seq<string>, log: seq<Event<string>>, w: Watcher, a: nat)
    requires Answered(log, w) && w.lost == {} && w.idle == {} && OnSchedule(values, items, log)
    requires WatcherAgrees(values, items, log, w)
    requires a < |w.delivered|
    ensures w.delivered[a].event % 2 == 1
    ensures a + 1 < |w.delivered| ==> w.delivered[a + 1].event == w.delivered[a].event + 2
  {
    hide OnSchedule, Window, PhaseAgrees;
    OddAnswer(values, items, log, w, a);
    if a + 1 < |w.delivered| {
      OddAnswer(values, items, log, w, a + 1);
      var e := w.delivered[a].event + 2;
      assert w.delivered[a].event < w.delivered[a + 1].event;
      WritesAreEven(values, items, log, e);
      assert Notified(w, e);
      var b :| 0 <= b < |w.delivered| && w.delivered[b].event == e;
      assert b > a;
    }
  }

  lemma OddAnswer(values: nat, items: seq<string>, log: seq<Event<string>>, w: Watcher, a: nat)
    requires OnSchedule(values, items, log) && WatcherAgrees(values, items, log, w) && a < |w.delivered|
    ensures w.delivered[a].event % 2 == 1 && w.delivered[a].event < |log|
  {
    hide OnSchedule, Window, PhaseAgrees;
    assert DeliveryAgrees(values, items, log, w.delivered[a]);
    WritesAreEven(values, items, log, w.delivered[a].event);
  }

  lemma {:induction false} AnswersAreConsecutive(values: nat, items: seq<string>, log: seq<Event<string>>, w: Watcher,
                                                 lo: nat, hi: nat)
    requires Answered(log, w) && w.lost == {} && w.idle == {} && OnSchedule(values, items, log)
    requires WatcherAgrees(values, items, log, w)
    requires lo < hi <= |w.delivered|
    ensures Consecutive(w.delivered[lo..hi], w.delivered[lo].event / 2)
    decreases hi
  {
    hide Answered, OnSchedule, WatcherAgrees;
    NextAnswer(values, items, log, w, hi - 1);
    if hi > lo + 1 {
      AnswersAreConsecutive(values, items, log, w, lo, hi - 1);
      NextAnswer(values, items, log, w, hi - 2);
      assert w.delivered[lo..hi] == w.delivered[lo..hi - 1] + [w.delivered[hi - 1]];
      assert w.delivered[lo..hi - 1][hi - 2 - lo] == w.delivered[hi - 2];
    }
  }

  /** End to end: on a ring whose items do not change and with no more values than items, or whole
      rounds of them, in every run whose trigger writes are harmless, a watcher that lost no lease gives every item
      its fair share of any stretch of its notifications, rounded down or up. */
  lemma FairWithNothingLost(values: nat, items: seq<string>, s: State, steps: seq<Step>, w: nat, lo: nat, hi: nat,
                            i: nat)
    requires Init(s) && values > 0 && Fitting(values, items) && Stable(values, s, steps, items)
    requires HarmlessRun(values, items, s, steps)
    requires w in Exec(values, s, steps).watchers && Exec(values, s, steps).watchers[w].lost == {}
    requires lo <= hi <= |Exec(values, s, steps).watchers[w].delivered| && i < |items|
    ensures var handed := Handed(Exec(values, s, steps).watchers[w].delivered[lo..hi]);
      Circle.FairShare(Circle.Count(handed, items[i]), (hi - lo) * values, |items|)
  {
    hide Exec, Answered, WatcherAgrees, OnSchedule, Handed, Circle.FairShare, Circle.Count, HarmlessRun, AlwaysOnSchedule, Stable;
    var t := Exec(values, s, steps);
    ExecSafe(values, s, steps);
    ExecAgrees(values, items, s, steps);
    RunOnScheduleExactly(values, items, s, steps);
    AlwaysMeansLast(values, items, s, steps);
    ExecAnswered(values, s, steps);
    NeverIdle(values, items, s, steps);
    var from := 0;
    if lo < hi {
      AnswersAreConsecutive(values, items, TriggerLog(t.store), t.watchers[w], lo, hi);
      from := t.watchers[w].delivered[lo].event / 2;
    }
    HarmlessRunsAreFair(values, items, s, steps, w, lo, hi, from, i);
  }
}
