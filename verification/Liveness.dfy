/** The liveness switches: a key whose value is a time-to-live, positive while its entity is
    alive and negative while it is dead, on a lease that ends unless it is asserted again. The
    model follows one switch through any number of monitoring clients. */
module Liveness {
  import opened Etcd

  const FALLBACK_TTL: int := 5
  const MAX_INT64: int := 0x7FFF_FFFF_FFFF_FFFF

  datatype SwitchState = Alive | Dead

  datatype Key = Switch | LeaseRecord

  datatype Value = Ttl(n: int) | Buried | LeaseRef(id: nat)

  type SwitchStore = Store<Key, Value>

  function SwitchLog(st: SwitchStore): seq<Event<Value>> { Log(st, Switch) }

  // ---- Reading an event ----

  /** A watch event as a client receives it; the previous value can be missing. */
  datatype Notice =
    | PutNotice(value: Value, prev: Option<Value>)
    | DeleteNotice(prev: Option<Value>)

  function Notify(e: Event<Value>, prevKnown: bool): Notice {
    match e
    case Put(entry, prev) =>
      PutNotice(entry.value, if prevKnown && prev.Some? then Some(prev.value.value) else None)
    case Delete(last) => DeleteNotice(if prevKnown then Some(last.value) else None)
  }

  predicate IsBuried(n: Notice) {
    match n
    case PutNotice(value, _) => value == Buried
    case DeleteNotice(prev) => prev == Some(Buried)
  }

  /** Scanning a value for a number; what is not a number leaves zero behind. */
  function Scan(v: Value): int {
    if v.Ttl? then v.n else 0
  }

  function TtlFromEvent(n: Notice): (int, SwitchState) {
    var prevState := if n.prev.Some? && Scan(n.prev.value) > 0 then Alive else Dead;
    match n
    case PutNotice(value, _) => (Scan(value), prevState)
    case DeleteNotice(prev) => (if prev.Some? then Scan(prev.value) else -FALLBACK_TTL, prevState)
  }

  /** The value an expired switch is replaced with. */
  function Undead(ttl: int): int { if ttl < 0 then ttl else -ttl }

  // ---- State ----

  /** A callback, with the position in the switch's log of the event that caused it; for a death
      also the length the log had when its leadership was decided. */
  datatype Callback =
    | OnDead(event: nat, prev: SwitchState, leader: bool, at: nat)
    | OnAlive(event: nat, prev: SwitchState)

  datatype Phase = Idle | Reviving(ttl: int, prev: SwitchState)

  /** A monitoring client: where its watch began, how many events it is done with, and its callbacks. */
  datatype Client = Client(start: nat, seen: nat, phase: Phase, callbacks: seq<Callback>)

  /** `assertions` are the calls of Alive: the log position each wrote, and its time-to-live. */
  datatype State = State(store: SwitchStore, clients: map<nat, Client>, assertions: map<nat, int>)

  // ---- Steps ----

  datatype Step =
    | Watch(c: nat)
    | Assert(ttl: int, alive: bool, lease: nat)
    | BuryMark
    | BuryErase
    | GrantLease
    | Expire(lease: nat)
    | Handle(c: nat, prevKnown: bool)
    | Revive(c: nat, lease: nat)
    | Abandon(c: nat)

  function Done(c: Client): Client { c.(seen := c.seen + 1, phase := Idle) }

  function Call(c: Client, cb: Callback): Client { Done(c).(callbacks := c.callbacks + [cb]) }

  /** handleEvent up to its first store access. */
  function HandleStep(c: Client, log: seq<Event<Value>>, prevKnown: bool): Client {
    if !c.phase.Idle? || c.seen >= |log| then c
    else
      var n := Notify(log[c.seen], prevKnown);
      if IsBuried(n) then Done(c)
      else
        var (ttl, prev) := TtlFromEvent(n);
        if n.DeleteNotice? then c.(phase := Reviving(Undead(ttl), prev))
        else if ttl > 0 && ttl != MAX_INT64 then Call(c, OnAlive(c.seen, prev))
        else Done(c)
  }

  /** handleEvent after its transaction. */
  function Revived(c: Client, outcome: Outcome, at: nat): Client
    requires c.phase.Reviving?
  {
    if outcome.LeaseGone? then Done(c) else Call(c, OnDead(c.seen, c.phase.prev, outcome.Committed?, at))
  }

  /** A step that is not possible changes nothing, so every list of steps is a run. The lease a
      ping or a handler ends up with is left open: any live one. */
  function Next(s: State, step: Step): State {
    var st := s.store;
    match step
    case Watch(c) =>
      if c in s.clients then s
      else s.(clients := s.clients[c := Client(|SwitchLog(st)|, |SwitchLog(st)|, Idle, [])])
    case Assert(ttl, alive, lease) =>
      if ttl < FALLBACK_TTL || lease !in st.live then s
      else s.(store := PutKey(st, Switch, Ttl(if alive then ttl else -ttl), lease),
              assertions := if alive then s.assertions[|SwitchLog(st)| := ttl] else s.assertions)
    case BuryMark => s.(store := PutKey(st, Switch, Buried, NO_LEASE))
    case BuryErase => s.(store := DeleteKey(st, Switch))
    case GrantLease => s.(store := Grant(st))
    case Expire(lease) => s.(store := EndLease(st, lease))
    case Handle(c, prevKnown) =>
      if c !in s.clients then s
      else s.(clients := s.clients[c := HandleStep(s.clients[c], SwitchLog(st), prevKnown)])
    case Revive(c, lease) =>
      if c !in s.clients || !s.clients[c].phase.Reviving? || lease == NO_LEASE then s
      else
        var x := s.clients[c];
        var outcome := CreateOutcome(st, Switch, lease);
        State(Create(st, Switch, Ttl(x.phase.ttl), lease),
              s.clients[c := Revived(x, outcome, |SwitchLog(st)|)],
              s.assertions)
    case Abandon(c) =>
      if c !in s.clients || !s.clients[c].phase.Reviving? then s
      else s.(clients := s.clients[c := Done(s.clients[c])])
  }

  function Exec(s: State, steps: seq<Step>): State
    decreases |steps|
  {
    if steps == [] then s else Exec(Next(s, steps[0]), steps[1..])
  }

  ghost predicate Init(s: State) {
    Consistent(s.store) && SwitchLog(s.store) == [] && s.clients == map[] && s.assertions == map[]
  }

  /** What a step can append to the switch's log. */
  lemma LogStep(s: State, step: Step)
    requires Consistent(s.store)
    ensures Consistent(Next(s, step).store)
    ensures var log, log' := SwitchLog(s.store), SwitchLog(Next(s, step).store);
      || log' == log
      || (|log'| == |log| + 1 && log <= log'
          && match log'[|log|]
             case Delete(last) => Lookup(s.store, Switch) == Some(last)
             case Put(entry, prev) => prev == Lookup(s.store, Switch) && Writes(s, step, entry.value))
  {
    var st := s.store;
    match step
    case Assert(ttl, alive, lease) =>
      if Next(s, step) != s { PutKeepsConsistent(st, Switch, Ttl(if alive then ttl else -ttl), lease); }
    case BuryMark => PutKeepsConsistent(st, Switch, Buried, NO_LEASE);
    case BuryErase => DeleteKeepsConsistent(st, Switch);
    case GrantLease => GrantKeepsConsistent(st);
    case Expire(lease) => EndLeaseKeepsConsistent(st, lease); EndLeaseLog(st, lease, Switch);
    case Revive(c, lease) =>
      if c in s.clients && s.clients[c].phase.Reviving? { CreateKeepsConsistent(st, Switch, Ttl(s.clients[c].phase.ttl), lease); }
    case _ =>
  }

  /** The step writes the switch with this value. */
  predicate Writes(s: State, step: Step, v: Value) {
    match step
    case Assert(ttl, alive, _) => ttl >= FALLBACK_TTL && v == Ttl(if alive then ttl else -ttl)
    case BuryMark => v == Buried
    case Revive(c, lease) => c in s.clients && s.clients[c].phase.Reviving? && v == Ttl(s.clients[c].phase.ttl)
    case _ => false
  }

  // ---- Leadership ----

  ghost predicate CreatedAt(log: seq<Event<Value>>, i: nat) {
    i < |log| && log[i].Put? && log[i].prev.None?
  }

  ghost predicate Death(s: State, c: nat, a: nat) {
    c in s.clients && a < |s.clients[c].callbacks| && s.clients[c].callbacks[a].OnDead?
  }

  ghost predicate Leads(s: State, c: nat, a: nat) { Death(s, c, a) && s.clients[c].callbacks[a].leader }

  ghost predicate DeathOk(log: seq<Event<Value>>, cb: Callback)
    requires cb.OnDead?
  {
    cb.at <= |log| && (cb.leader <==> Before(log, cb.at).None?) && (cb.leader ==> CreatedAt(log, cb.at))
  }

  ghost predicate DeathsOk(log: seq<Event<Value>>, c: Client) {
    forall a :: 0 <= a < |c.callbacks| && c.callbacks[a].OnDead? ==> DeathOk(log, c.callbacks[a])
  }

  ghost predicate AllDeathsOk(s: State) {
    forall c :: c in s.clients ==> DeathsOk(SwitchLog(s.store), s.clients[c])
  }

  ghost predicate LeadersApart(s: State) {
    forall c, a, d, b :: Leads(s, c, a) && Leads(s, d, b) && (c != d || a != b) ==> LeadAt(s, c, a) != LeadAt(s, d, b)
  }

  ghost function LeadAt(s: State, c: nat, a: nat): nat
    requires Leads(s, c, a)
  {
    s.clients[c].callbacks[a].at
  }

  lemma DeathsLonger(log: seq<Event<Value>>, log': seq<Event<Value>>, c: Client)
    requires DeathsOk(log, c) && log <= log'
    ensures DeathsOk(log', c)
  {
    forall a | 0 <= a < |c.callbacks| && c.callbacks[a].OnDead? ensures DeathOk(log', c.callbacks[a]) {
      assert DeathOk(log, c.callbacks[a]) && Before(log', c.callbacks[a].at) == Before(log, c.callbacks[a].at);
    }
  }

  /** The clients after a step: one more callback for one of them at most. */
  lemma ClientStep(s: State, step: Step, c: nat)
    requires c in Next(s, step).clients
    ensures var x' := Next(s, step).clients[c];
      if c !in s.clients then x'.callbacks == []
      else
        || x'.callbacks == s.clients[c].callbacks
        || (|x'.callbacks| == |s.clients[c].callbacks| + 1 && s.clients[c].callbacks <= x'.callbacks
            && var cb := x'.callbacks[|s.clients[c].callbacks|];
               cb.OnDead? ==>
                 && step.Revive? && step.c == c && cb.at == |SwitchLog(s.store)|
                 && (cb.leader <==> CreateOutcome(s.store, Switch, step.lease).Committed?))
  {
  }

  lemma WinIsWritten(s: State, step: Step)
    requires Consistent(s.store) && step.Revive? && step.c in s.clients && s.clients[step.c].phase.Reviving?
    requires step.lease != NO_LEASE
    requires !CreateOutcome(s.store, Switch, step.lease).LeaseGone?
    ensures var log, log' := SwitchLog(s.store), SwitchLog(Next(s, step).store);
      && (CreateOutcome(s.store, Switch, step.lease).Committed? <==> Before(log', |log|).None?)
      && (CreateOutcome(s.store, Switch, step.lease).Committed? ==> CreatedAt(log', |log|))
      && log <= log'
  {
    assert KeyConsistent(s.store, Switch);
  }

  lemma NextDeathsOk(s: State, step: Step)
    requires Consistent(s.store) && AllDeathsOk(s)
    ensures AllDeathsOk(Next(s, step))
  {
    var s' := Next(s, step);
    LogStep(s, step);
    forall c | c in s'.clients ensures DeathsOk(SwitchLog(s'.store), s'.clients[c]) {
      ClientDeathsOk(s, step, c);
    }
  }

  lemma ClientDeathsOk(s: State, step: Step, c: nat)
    requires Consistent(s.store) && AllDeathsOk(s) && c in Next(s, step).clients
    requires SwitchLog(s.store) <= SwitchLog(Next(s, step).store)
    ensures DeathsOk(SwitchLog(Next(s, step).store), Next(s, step).clients[c])
  {
    ClientStep(s, step, c);
    var log', x' := SwitchLog(Next(s, step).store), Next(s, step).clients[c];
    if c in s.clients {
      DeathsLonger(SwitchLog(s.store), log', s.clients[c]);
      if step.Revive? && step.c == c && x'.callbacks != s.clients[c].callbacks { WinIsWritten(s, step); }
      hide DeathOk, Next, Consistent;
      forall a | 0 <= a < |x'.callbacks| && x'.callbacks[a].OnDead? ensures DeathOk(log', x'.callbacks[a]) {
        if a < |s.clients[c].callbacks| { assert x'.callbacks[a] == s.clients[c].callbacks[a]; }
      }
    }
  }

  ghost predicate StillLeads(s: State, s': State, c: nat, a: nat) {
    && Leads(s, c, a) && Leads(s', c, a) && s'.clients[c].callbacks[a] == s.clients[c].callbacks[a]
    && s.clients[c].callbacks[a].at < |SwitchLog(s.store)|
  }

  ghost predicate NowLeads(s: State, s': State, step: Step, c: nat, a: nat) {
    && Leads(s', c, a) && s'.clients[c].callbacks[a].at == |SwitchLog(s.store)|
    && step.Revive? && step.c == c && c in s.clients && a == |s.clients[c].callbacks|
  }

  lemma LeaderOldOrNew(s: State, step: Step, c: nat, a: nat)
    requires AllDeathsOk(s) && Leads(Next(s, step), c, a)
    ensures StillLeads(s, Next(s, step), c, a) || NowLeads(s, Next(s, step), step, c, a)
  {
    ClientStep(s, step, c);
    hide Next;
    if c in s.clients && a < |s.clients[c].callbacks| {
      assert Next(s, step).clients[c].callbacks[a] == s.clients[c].callbacks[a];
      assert DeathOk(SwitchLog(s.store), s.clients[c].callbacks[a]);
    }
  }

  lemma NextLeadersApart(s: State, step: Step)
    requires AllDeathsOk(s) && LeadersApart(s)
    ensures LeadersApart(Next(s, step))
  {
    hide Next, AllDeathsOk, Leads;
    var s' := Next(s, step);
    forall c, a, d, b | Leads(s', c, a) && Leads(s', d, b) && (c != d || a != b)
      ensures LeadAt(s', c, a) != LeadAt(s', d, b)
    {
      LeaderOldOrNew(s, step, c, a);
      LeaderOldOrNew(s, step, d, b);
    }
  }

  lemma {:induction false} ExecLeaders(s: State, steps: seq<Step>)
    requires Consistent(s.store) && AllDeathsOk(s) && LeadersApart(s)
    ensures Consistent(Exec(s, steps).store) && AllDeathsOk(Exec(s, steps)) && LeadersApart(Exec(s, steps))
    decreases |steps|
  {
    hide Next, Consistent, AllDeathsOk, LeadersApart;
    if steps != [] {
      LogStep(s, steps[0]);
      NextDeathsOk(s, steps[0]);
      NextLeadersApart(s, steps[0]);
      ExecLeaders(Next(s, steps[0]), steps[1..]);
    }
  }

  /** In every run a dead callback leads if and only if the switch was gone when that was decided. */
  lemma LeaderExactly(s: State, steps: seq<Step>, c: nat, a: nat)
    requires Init(s) && Death(Exec(s, steps), c, a)
    ensures var cb := Exec(s, steps).clients[c].callbacks[a]; var log := SwitchLog(Exec(s, steps).store);
      cb.at <= |log| && (cb.leader <==> Before(log, cb.at).None?)
  {
    ExecLeaders(s, steps);
    assert DeathsOk(SwitchLog(Exec(s, steps).store), Exec(s, steps).clients[c]);
  }

  /** In every run, late handlers included, two leading dead callbacks, of one client or of two,
      have a deletion of the switch between the writes that made them lead. */
  lemma LeaderWinsSeparated(s: State, steps: seq<Step>, c: nat, a: nat, d: nat, b: nat)
    requires Init(s) && Leads(Exec(s, steps), c, a) && Leads(Exec(s, steps), d, b) && (c != d || a != b)
    requires LeadAt(Exec(s, steps), c, a) <= LeadAt(Exec(s, steps), d, b)
    ensures var t := Exec(s, steps); var first, second := LeadAt(t, c, a), LeadAt(t, d, b);
      first < second < |SwitchLog(t.store)| && exists e :: first < e < second && SwitchLog(t.store)[e].Delete?
  {
    hide Exec;
    ExecLeaders(s, steps);
    var t := Exec(s, steps);
    assert DeathsOk(SwitchLog(t.store), t.clients[c]) && DeathsOk(SwitchLog(t.store), t.clients[d]);
    assert KeyConsistent(t.store, Switch);
    CreationsSeparated(SwitchLog(t.store), LeadAt(t, c, a), LeadAt(t, d, b));
  }

  // ---- The sign of the value ----

  ghost predicate Encoded(T: int, v: Value) { v == Ttl(T) || v == Ttl(-T) || v == Buried }

  /** Every assertion uses the time-to-live T and previous values are delivered. */
  ghost predicate OneTtl(T: int, steps: seq<Step>) {
    forall i :: 0 <= i < |steps| ==>
      (steps[i].Assert? ==> steps[i].ttl == T) && (steps[i].Handle? ==> steps[i].prevKnown)
  }

  ghost predicate AllEncoded(T: int, s: State) {
    && (forall i :: 0 <= i < |SwitchLog(s.store)| && SwitchLog(s.store)[i].Put? ==> Encoded(T, SwitchLog(s.store)[i].entry.value))
    && (forall c :: c in s.clients && s.clients[c].phase.Reviving? ==> s.clients[c].phase.ttl == -T)
  }

  lemma DeletedEncoded(T: int, log: seq<Event<Value>>, i: nat)
    requires Chained(log) && i < |log| && log[i].Delete?
    requires forall j :: 0 <= j < |log| && log[j].Put? ==> Encoded(T, log[j].entry.value)
    ensures Encoded(T, log[i].last.value)
  {
    assert Reported(log[i]) == Before(log, i);
  }

  lemma NextEncoded(T: int, s: State, step: Step)
    requires T > 0 && Consistent(s.store) && AllEncoded(T, s) && OneTtl(T, [step])
    ensures AllEncoded(T, Next(s, step))
  {
    LogStep(s, step);
    assert [step][0] == step;
    if step.Handle? && step.c in s.clients && Next(s, step).clients[step.c].phase.Reviving? && s.clients[step.c].phase.Idle? {
      assert KeyConsistent(s.store, Switch);
      DeletedEncoded(T, SwitchLog(s.store), s.clients[step.c].seen);
    }
  }

  lemma {:induction false} ExecEncoded(T: int, s: State, steps: seq<Step>)
    requires T > 0 && Consistent(s.store) && AllEncoded(T, s) && OneTtl(T, steps)
    ensures AllEncoded(T, Exec(s, steps))
    decreases |steps|
  {
    if steps != [] {
      assert steps[0] == steps[..1][0] && [steps[0]] == steps[..1];
      LogStep(s, steps[0]);
      NextEncoded(T, s, steps[0]);
      ExecEncoded(T, Next(s, steps[0]), steps[1..]);
    }
  }

  /** The event writes life with this time-to-live. */
  ghost predicate Asserts(e: Event<Value>, ttl: int) { e.Put? && Scan(e.entry.value) == ttl && ttl > 0 }

  /** Positive values are exactly those written by calls of Alive. */
  ghost predicate AssertionsRight(s: State) {
    && (forall i :: i in s.assertions ==> i < |SwitchLog(s.store)| && Asserts(SwitchLog(s.store)[i], s.assertions[i]))
    && (forall i :: 0 <= i < |SwitchLog(s.store)| && SwitchLog(s.store)[i].Put? && Scan(SwitchLog(s.store)[i].entry.value) > 0 ==>
          i in s.assertions)
    && RevivedAsDead(s)
  }

  ghost predicate RevivedAsDead(s: State) {
    forall c :: c in s.clients && s.clients[c].phase.Reviving? ==> s.clients[c].phase.ttl <= 0
  }

  lemma NextRevivedAsDead(s: State, step: Step)
    requires RevivedAsDead(s)
    ensures RevivedAsDead(Next(s, step))
  {
  }

  lemma NextAssertions(s: State, step: Step)
    requires Consistent(s.store) && AssertionsRight(s)
    ensures AssertionsRight(Next(s, step))
  {
    LogStep(s, step);
    NextRevivedAsDead(s, step);
    hide Consistent;
  }

  lemma {:induction false} ExecAssertions(s: State, steps: seq<Step>)
    requires Consistent(s.store) && AssertionsRight(s)
    ensures AssertionsRight(Exec(s, steps))
    decreases |steps|
  {
    hide AssertionsRight, Consistent, Next;
    if steps != [] {
      LogStep(s, steps[0]);
      NextAssertions(s, steps[0]);
      ExecAssertions(Next(s, steps[0]), steps[1..]);
    }
  }

  /** With one time-to-live T throughout, every value ever written is T, -T or the burial mark;
      and in any run at all the positive values are exactly those asserted by calls of Alive. */
  lemma SignEncodesLife(T: int, s: State, steps: seq<Step>, i: nat)
    requires Init(s) && T >= FALLBACK_TTL
    requires i < |SwitchLog(Exec(s, steps).store)| && SwitchLog(Exec(s, steps).store)[i].Put?
    ensures var v := SwitchLog(Exec(s, steps).store)[i].entry.value;
      && (OneTtl(T, steps) ==> Encoded(T, v))
      && (Scan(v) > 0 <==> i in Exec(s, steps).assertions)
      && (i in Exec(s, steps).assertions ==> v == Ttl(Exec(s, steps).assertions[i]))
  {
    ExecAssertions(s, steps);
    if OneTtl(T, steps) { ExecEncoded(T, s, steps); }
  }

  // ---- Death spells ----

  /** A sign of life. The largest time-to-live counts as none. */
  ghost predicate ShowsAlive(e: Event<Value>) {
    e.Put? && Scan(e.entry.value) > 0 && Scan(e.entry.value) != MAX_INT64
  }

  /** The callbacks a client has made are about the events it is done with, in order: exactly
      the signs of life are called out as alive, and a death reported as a change follows a
      positive value. */
  ghost predicate Recorded(log: seq<Event<Value>>, c: Client) {
    InPlace(log, c) && DeathsFollow(log, c) && LifeCalled(log, c)
  }

  ghost predicate InPlace(log: seq<Event<Value>>, c: Client) {
    && c.start <= c.seen <= |log|
    && (forall a :: 0 <= a < |c.callbacks| ==> c.start <= c.callbacks[a].event < c.seen)
    && (forall a, b :: 0 <= a < b < |c.callbacks| ==> c.callbacks[a].event < c.callbacks[b].event)
  }

  ghost predicate DeathsFollow(log: seq<Event<Value>>, c: Client)
    requires InPlace(log, c)
  {
    && (c.phase.Reviving? ==> c.seen < |log| && log[c.seen].Delete? && (c.phase.prev.Alive? ==> Scan(log[c.seen].last.value) > 0))
    && (forall a :: 0 <= a < |c.callbacks| && c.callbacks[a].OnDead? ==>
          log[c.callbacks[a].event].Delete? && (c.callbacks[a].prev.Alive? ==> Scan(log[c.callbacks[a].event].last.value) > 0))
  }

  ghost predicate LifeCalled(log: seq<Event<Value>>, c: Client)
    requires InPlace(log, c)
  {
    && (forall a :: 0 <= a < |c.callbacks| && c.callbacks[a].OnAlive? ==> ShowsAlive(log[c.callbacks[a].event]))
    && (forall e :: c.start <= e < c.seen && ShowsAlive(log[e]) ==> CalledAlive(c, e))
  }

  ghost predicate CalledAlive(c: Client, e: nat) {
    exists a :: 0 <= a < |c.callbacks| && c.callbacks[a].OnAlive? && c.callbacks[a].event == e
  }

  lemma RecordedLonger(log: seq<Event<Value>>, log': seq<Event<Value>>, c: Client)
    requires Recorded(log, c) && log <= log'
    ensures Recorded(log', c)
  {
  }

  lemma CallRecorded(log: seq<Event<Value>>, c: Client, cb: Callback)
    requires Recorded(log, c) && c.seen < |log| && cb.event == c.seen
    requires cb.OnDead? ==> log[c.seen].Delete? && (cb.prev.Alive? ==> Scan(log[c.seen].last.value) > 0)
    requires ShowsAlive(log[c.seen]) <==> cb.OnAlive?
    ensures Recorded(log, Call(c, cb))
  {
    var c' := Call(c, cb);
    forall e | c'.start <= e < c'.seen && ShowsAlive(log[e]) ensures CalledAlive(c', e) {
      if e == c.seen {
        assert c'.callbacks[|c.callbacks|] == cb;
      } else {
        assert CalledAlive(c, e);
        var a :| 0 <= a < |c.callbacks| && c.callbacks[a].OnAlive? && c.callbacks[a].event == e;
        assert c'.callbacks[a] == c.callbacks[a];
      }
    }
  }

  lemma DoneRecorded(log: seq<Event<Value>>, c: Client)
    requires Recorded(log, c) && c.seen < |log| && !ShowsAlive(log[c.seen])
    ensures Recorded(log, Done(c))
  {
    hide Scan, ShowsAlive;
    var c' := Done(c);
    assert InPlace(log, c') && DeathsFollow(log, c');
    forall e | c'.start <= e < c'.seen && ShowsAlive(log[e]) ensures CalledAlive(c', e) {
      assert CalledAlive(c, e);
    }
  }

  lemma RevivingRecorded(log: seq<Event<Value>>, c: Client, ttl: int, prev: SwitchState)
    requires Recorded(log, c) && c.seen < |log| && log[c.seen].Delete?
    requires prev.Alive? ==> Scan(log[c.seen].last.value) > 0
    ensures Recorded(log, c.(phase := Reviving(ttl, prev)))
  {
    hide Scan, ShowsAlive;
    var c' := c.(phase := Reviving(ttl, prev));
    assert InPlace(log, c') && DeathsFollow(log, c');
    forall e | c'.start <= e < c'.seen && ShowsAlive(log[e]) ensures CalledAlive(c', e) {
      assert CalledAlive(c, e);
    }
  }

  lemma HandleRecorded(log: seq<Event<Value>>, c: Client, prevKnown: bool)
    requires Recorded(log, c)
    ensures Recorded(log, HandleStep(c, log, prevKnown))
  {
    hide Recorded;
    if c.phase.Idle? && c.seen < |log| {
      var n := Notify(log[c.seen], prevKnown);
      var (ttl, prev) := TtlFromEvent(n);
      if IsBuried(n) {
        DoneRecorded(log, c);
      } else if n.DeleteNotice? {
        RevivingRecorded(log, c, Undead(ttl), prev);
      } else if ttl > 0 && ttl != MAX_INT64 {
        CallRecorded(log, c, OnAlive(c.seen, prev));
      } else {
        DoneRecorded(log, c);
      }
    }
  }

  ghost predicate AllRecorded(s: State) {
    forall c :: c in s.clients ==> Recorded(SwitchLog(s.store), s.clients[c])
  }

  lemma ClientStepRecorded(s: State, step: Step, c: nat)
    requires Consistent(s.store) && AllRecorded(s) && c in s.clients
    ensures c in Next(s, step).clients && Recorded(SwitchLog(s.store), Next(s, step).clients[c])
  {
    hide Recorded;
    var log, x := SwitchLog(s.store), s.clients[c];
    match step
    case Handle(d, prevKnown) => if c == d { HandleRecorded(log, x, prevKnown); }
    case Revive(d, lease) => if c == d && x.phase.Reviving? { ReviveRecorded(log, x, CreateOutcome(s.store, Switch, lease)); }
    case Abandon(d) => if c == d && x.phase.Reviving? { AbandonRecorded(log, x); }
    case _ =>
  }

  lemma ReviveRecorded(log: seq<Event<Value>>, c: Client, outcome: Outcome)
    requires Recorded(log, c) && c.phase.Reviving?
    ensures Recorded(log, Revived(c, outcome, |log|))
  {
    if outcome.LeaseGone? {
      DoneRecorded(log, c);
    } else {
      CallRecorded(log, c, OnDead(c.seen, c.phase.prev, outcome.Committed?, |log|));
    }
  }

  lemma AbandonRecorded(log: seq<Event<Value>>, c: Client)
    requires Recorded(log, c) && c.phase.Reviving?
    ensures Recorded(log, Done(c))
  {
    DoneRecorded(log, c);
  }

  lemma NextRecorded(s: State, step: Step)
    requires Consistent(s.store) && AllRecorded(s)
    ensures AllRecorded(Next(s, step))
  {
    var s' := Next(s, step);
    var log, log' := SwitchLog(s.store), SwitchLog(s'.store);
    LogStep(s, step);
    hide Next, Recorded, Consistent;
    forall c | c in s'.clients ensures Recorded(log', s'.clients[c]) {
      if c in s.clients { ClientStepRecorded(s, step, c); } else { NewcomerRecorded(s, step, c); }
      RecordedLonger(log, log', s'.clients[c]);
    }
  }

  lemma NewcomerRecorded(s: State, step: Step, c: nat)
    requires c !in s.clients && c in Next(s, step).clients
    ensures Recorded(SwitchLog(s.store), Next(s, step).clients[c])
  {
  }

  lemma {:induction false} ExecRecorded(s: State, steps: seq<Step>)
    requires Consistent(s.store) && AllRecorded(s)
    ensures Consistent(Exec(s, steps).store) && AllRecorded(Exec(s, steps))
    decreases |steps|
  {
    hide AllRecorded, Consistent, Next;
    if steps != [] {
      LogStep(s, steps[0]);
      NextRecorded(s, steps[0]);
      ExecRecorded(Next(s, steps[0]), steps[1..]);
    }
  }

  /** In every run, of the events a client is done with exactly the signs of life are called out
      as alive, and no event is called out twice. */
  lemma LifeReportedExactly(s: State, steps: seq<Step>, c: nat, e: nat)
    requires Init(s) && c in Exec(s, steps).clients
    requires Exec(s, steps).clients[c].start <= e < Exec(s, steps).clients[c].seen
    requires e < |SwitchLog(Exec(s, steps).store)|
    ensures var x := Exec(s, steps).clients[c];
      && (CalledAlive(x, e) <==> ShowsAlive(SwitchLog(Exec(s, steps).store)[e]))
      && (forall a, b :: 0 <= a < b < |x.callbacks| ==> x.callbacks[a].event != x.callbacks[b].event)
  {
    ExecRecorded(s, steps);
    var t := Exec(s, steps);
    assert Recorded(SwitchLog(t.store), t.clients[c]);
  }

  /** Life was asserted between two log positions with a time-to-live other than the largest. */
  ghost predicate AssertedBetween(s: State, lo: nat, hi: nat) {
    exists e :: lo < e < hi && e in s.assertions && s.assertions[e] != MAX_INT64
  }

  /** In every run: two dead callbacks of one client have an alive callback between them if and
      only if Alive was called between the two expiries with a time-to-live other than the
      largest. */
  lemma SpellsSeparatedExactly(s: State, steps: seq<Step>, c: nat, a: nat, b: nat)
    requires Init(s) && c in Exec(s, steps).clients && a < b < |Exec(s, steps).clients[c].callbacks|
    requires Exec(s, steps).clients[c].callbacks[a].OnDead? && Exec(s, steps).clients[c].callbacks[b].OnDead?
    ensures var t := Exec(s, steps); var cbs := t.clients[c].callbacks;
      (exists m :: a < m < b && cbs[m].OnAlive?) <==> AssertedBetween(t, cbs[a].event, cbs[b].event)
  {
    hide Exec, Recorded, AssertionsRight;
    ExecRecorded(s, steps);
    assert AssertionsRight(s) by { NothingAsserted(s); }
    ExecAssertions(s, steps);
    var t := Exec(s, steps);
    assert Recorded(SwitchLog(t.store), t.clients[c]);
    SpellsExactly(t, c, a, b);
  }

  lemma NothingAsserted(s: State)
    requires Init(s)
    ensures AssertionsRight(s)
  {
  }

  lemma SpellsExactly(t: State, c: nat, a: nat, b: nat)
    requires AssertionsRight(t) && c in t.clients && Recorded(SwitchLog(t.store), t.clients[c])
    requires a < b < |t.clients[c].callbacks|
    ensures var cbs := t.clients[c].callbacks;
      (exists m :: a < m < b && cbs[m].OnAlive?) <==> AssertedBetween(t, cbs[a].event, cbs[b].event)
  {
    var log, x := SwitchLog(t.store), t.clients[c];
    if AssertedBetween(t, x.callbacks[a].event, x.callbacks[b].event) {
      var e :| x.callbacks[a].event < e < x.callbacks[b].event && e in t.assertions && t.assertions[e] != MAX_INT64;
      assert Asserts(log[e], t.assertions[e]);
      SpellEnds(log, x, a, b, e);
    }
    if m :| a < m < b && x.callbacks[m].OnAlive? {
      var e := x.callbacks[m].event;
      assert ShowsAlive(log[e]) && Asserts(log[e], t.assertions[e]);
    }
  }

  lemma SpellEnds(log: seq<Event<Value>>, c: Client, a: nat, b: nat, e: nat)
    requires Recorded(log, c) && a < b < |c.callbacks| && c.callbacks[a].event < e < c.callbacks[b].event
    requires e < |log| && ShowsAlive(log[e])
    ensures exists m :: a < m < b && c.callbacks[m].OnAlive?
  {
    assert CalledAlive(c, e);
    assert InOrder(c.callbacks);
    hide Recorded, ShowsAlive, InOrder;
    var m :| 0 <= m < |c.callbacks| && c.callbacks[m].OnAlive? && c.callbacks[m].event == e;
    EarlierEvent(c.callbacks, a, m);
    EarlierEvent(c.callbacks, m, b);
  }

  ghost predicate InOrder(cbs: seq<Callback>) {
    forall a, b :: 0 <= a < b < |cbs| ==> cbs[a].event < cbs[b].event
  }

  lemma EarlierEvent(cbs: seq<Callback>, a: nat, b: nat)
    requires InOrder(cbs) && a < |cbs| && b < |cbs| && cbs[a].event < cbs[b].event
    ensures a < b
  {
  }

  // ---- The state reported as the one before ----

  ghost predicate PrevRight(e: Event<Value>, prev: SwitchState) {
    match e
    case Delete(last) => prev.Alive? <==> Scan(last.value) > 0
    case Put(_, before) => prev.Alive? <==> before.Some? && Scan(before.value.value) > 0
  }

  ghost predicate Told(log: seq<Event<Value>>, c: Client) {
    && (c.phase.Reviving? ==> c.seen < |log| && PrevRight(log[c.seen], c.phase.prev))
    && (forall a :: 0 <= a < |c.callbacks| ==>
          c.callbacks[a].event < |log| && PrevRight(log[c.callbacks[a].event], c.callbacks[a].prev))
  }

  lemma ClientTold(s: State, step: Step, c: nat)
    requires c in Next(s, step).clients && (c in s.clients ==> Told(SwitchLog(s.store), s.clients[c]))
    requires step.Handle? ==> step.prevKnown
    ensures Told(SwitchLog(s.store), Next(s, step).clients[c])
  {
  }

  lemma {:induction false} ExecTold(s: State, steps: seq<Step>)
    requires Consistent(s.store) && forall c :: c in s.clients ==> Told(SwitchLog(s.store), s.clients[c])
    requires forall i :: 0 <= i < |steps| && steps[i].Handle? ==> steps[i].prevKnown
    ensures forall c :: c in Exec(s, steps).clients ==> Told(SwitchLog(Exec(s, steps).store), Exec(s, steps).clients[c])
    decreases |steps|
  {
    if steps != [] {
      var t := Next(s, steps[0]);
      LogStep(s, steps[0]);
      forall c | c in t.clients ensures Told(SwitchLog(t.store), t.clients[c]) {
        ClientTold(s, steps[0], c);
      }
      ExecTold(t, steps[1..]);
    }
  }

  /** In every run in which previous values are delivered, every callback, dead or alive, reports
      the entity as alive before if and only if the value before its event was positive. */
  lemma PreviousStateExactly(s: State, steps: seq<Step>, c: nat, a: nat)
    requires Init(s) && forall i :: 0 <= i < |steps| && steps[i].Handle? ==> steps[i].prevKnown
    requires c in Exec(s, steps).clients && a < |Exec(s, steps).clients[c].callbacks|
    ensures var cb, log := Exec(s, steps).clients[c].callbacks[a], SwitchLog(Exec(s, steps).store);
      cb.event < |log| && (cb.prev.Alive? <==> Before(log, cb.event).Some? && Scan(Before(log, cb.event).value.value) > 0)
  {
    ExecTold(s, steps);
    ExecRecorded(s, steps);
    hide Exec;
    var t := Exec(s, steps);
    var log, e := SwitchLog(t.store), t.clients[c].callbacks[a].event;
    assert KeyConsistent(t.store, Switch) && Told(log, t.clients[c]);
    assert Reported(log[e]) == Before(log, e);
  }

  // ---- Without the largest time-to-live ----

  ghost predicate NoMaxTtl(s: State) {
    && (forall i :: 0 <= i < |SwitchLog(s.store)| && SwitchLog(s.store)[i].Put? ==>
          Scan(SwitchLog(s.store)[i].entry.value) != MAX_INT64)
    && (forall c :: c in s.clients && s.clients[c].phase.Reviving? ==> s.clients[c].phase.ttl <= 0)
  }

  lemma NextNoMaxTtl(s: State, step: Step)
    requires Consistent(s.store) && NoMaxTtl(s) && (step.Assert? && step.alive ==> step.ttl != MAX_INT64)
    ensures NoMaxTtl(Next(s, step))
  {
    LogStep(s, step);
  }

  lemma {:induction false} ExecNoMaxTtl(s: State, steps: seq<Step>)
    requires Consistent(s.store) && NoMaxTtl(s)
    requires forall i :: 0 <= i < |steps| && steps[i].Assert? && steps[i].alive ==> steps[i].ttl != MAX_INT64
    ensures NoMaxTtl(Exec(s, steps))
    decreases |steps|
  {
    hide NoMaxTtl, Consistent, Next;
    if steps != [] {
      LogStep(s, steps[0]);
      NextNoMaxTtl(s, steps[0]);
      ExecNoMaxTtl(Next(s, steps[0]), steps[1..]);
    }
  }

  /** On one client, two dead callbacks that report the entity as alive before have an alive
      callback between them, whatever the other clients do, as long as nobody asserts life with
      the largest time-to-live. */
  lemma DeathSpellsSeparated(s: State, steps: seq<Step>, c: nat, a: nat, b: nat)
    requires Init(s)
    requires forall i :: 0 <= i < |steps| && steps[i].Assert? && steps[i].alive ==> steps[i].ttl != MAX_INT64
    requires c in Exec(s, steps).clients && a < b < |Exec(s, steps).clients[c].callbacks|
    requires var cbs := Exec(s, steps).clients[c].callbacks;
      cbs[a].OnDead? && cbs[a].prev.Alive? && cbs[b].OnDead? && cbs[b].prev.Alive?
    ensures exists m :: a < m < b && Exec(s, steps).clients[c].callbacks[m].OnAlive?
  {
    hide Exec, Recorded, Chained;
    ExecRecorded(s, steps);
    ExecNoMaxTtl(s, steps);
    var t := Exec(s, steps);
    var log, x := SwitchLog(t.store), t.clients[c];
    assert KeyConsistent(t.store, Switch);
    LifeBeforeDeath(log, x, a, b);
    SpellEnds(log, x, a, b, x.callbacks[b].event - 1);
  }

  lemma LifeBeforeDeath(log: seq<Event<Value>>, c: Client, a: nat, b: nat)
    requires Chained(log) && Recorded(log, c) && a < b < |c.callbacks|
    requires c.callbacks[a].OnDead? && c.callbacks[b].OnDead? && c.callbacks[b].prev.Alive?
    ensures var e := c.callbacks[b].event;
      c.callbacks[a].event < e - 1 < |log| && log[e - 1].Put? && Scan(log[e - 1].entry.value) > 0
  {
    var d, e := c.callbacks[a].event, c.callbacks[b].event;
    assert d < e && log[d].Delete? && log[e].Delete?;
    assert Reported(log[e]) == Before(log, e);
  }
}
