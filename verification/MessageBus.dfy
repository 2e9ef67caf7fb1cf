/** The message bus: topics come into being with their first subscriber, retire with their
    last, and are replaced by new topic objects; cancelled subscriptions keep pointing at the
    object they were made on. The reference is a plain table of who is bound to what. */
module MessageBus {

  // ---- The reference ----

  type Bindings = map<string, nat>

  /** Who is bound to each topic, and how often each topic has become empty. */
  datatype Table = Table(bound: map<string, Bindings>, retired: map<string, nat>)

  /** What a subscriber gets: the topic and consumer, and the topic's count at the time. */
  datatype Receipt = Receipt(topic: string, consumer: string, retired: nat)

  function BoundTo(t: Table, topic: string): Bindings {
    if topic in t.bound then t.bound[topic] else map[]
  }

  function RetiredCount(t: Table, topic: string): nat {
    if topic in t.retired then t.retired[topic] else 0
  }

  predicate Binds(t: Table, topic: string, consumer: string, sub: nat) {
    consumer in BoundTo(t, topic) && BoundTo(t, topic)[consumer] == sub
  }

  function Bind(t: Table, topic: string, consumer: string, sub: nat): Table {
    t.(bound := t.bound[topic := BoundTo(t, topic)[consumer := sub]])
  }

  /** Only a subscription to the present life of its topic has something to cancel. */
  function Unbind(t: Table, r: Receipt): Table {
    if RetiredCount(t, r.topic) != r.retired then t
    else
      var left := BoundTo(t, r.topic) - {r.consumer};
      Table(t.bound[r.topic := left],
            if left == map[] then t.retired[r.topic := RetiredCount(t, r.topic) + 1] else t.retired)
  }

  /** A subscription changes the one binding of its consumer to its topic, a cancellation takes
      away at most that one; whoever else is bound to whatever topic stays bound. */
  lemma BindExactly(t: Table, topic: string, consumer: string, sub: nat)
    ensures forall n, c, x: nat ::
      Binds(Bind(t, topic, consumer, sub), n, c, x) <==>
      if n == topic && c == consumer then x == sub else Binds(t, n, c, x)
  {
  }

  lemma UnbindExactly(t: Table, r: Receipt)
    ensures forall n, c, x: nat ::
      Binds(Unbind(t, r), n, c, x) <==>
      Binds(t, n, c, x) && !(n == r.topic && c == r.consumer && r.retired == RetiredCount(t, n))
  {
  }

  // ---- Topics ----

  class Topic {
    const id: string
    ghost const life: nat
    var bindings: Bindings
    var done: bool

    constructor (id: string, ghost life: nat)
      ensures this.id == id && this.life == life && bindings == map[] && !done
    {
      this.id := id;
      this.life := life;
      bindings := map[];
      done := false;
    }

    /** Every binding once, in some order. */
    method Send() returns (reached: seq<(string, nat)>)
      ensures forall i, j :: 0 <= i < j < |reached| ==> reached[i] != reached[j]
      ensures forall p :: p in reached <==> p.0 in bindings && bindings[p.0] == p.1
    {
      reached := [];
      var rest := bindings.Keys;
      while rest != {}
        invariant rest <= bindings.Keys
        invariant forall i, j :: 0 <= i < j < |reached| ==> reached[i] != reached[j]
        invariant forall p :: p in reached <==> p.0 in bindings && p.0 !in rest && bindings[p.0] == p.1
        decreases rest
      {
        var consumer :| consumer in rest;
        rest := rest - {consumer};
        reached := reached + [(consumer, bindings[consumer])];
      }
    }

    method Subscribe(consumer: string, sub: nat)
      modifies this
      ensures bindings == old(bindings)[consumer := sub] && done == old(done)
    {
      bindings := bindings[consumer := sub];
    }

    method Unsubscribe(consumer: string)
      modifies this
      ensures bindings == old(bindings) - {consumer}
      ensures done == (old(done) || bindings == map[])
    {
      bindings := bindings - {consumer};
      if |bindings| == 0 {
        if !done {
          done := true;
        }
      }
    }
  }

  datatype Subscription = Subscription(id: string, topic: Topic)

  // ---- The bus ----

  datatype Reply<T> = Done(value: T) | NotRunning

  class Bus {
    var running: bool
    var topics: map<string, Topic>
    // every topic object there ever was
    ghost var all: set<Topic>
    // the table this bus stands for
    ghost var table: Table

    /** A topic is open exactly while it has bindings, which is while it is its name's present
        life, and then it is the one mapped; all the others have been retired for good. */
    ghost predicate TopicOk(t: Topic)
      reads this, t
    {
      && (t.done <==> t.bindings == map[])
      && t.life <= RetiredCount(table, t.id)
      && (t.done <==> t.life < RetiredCount(table, t.id))
      && (!t.done ==> t.id in topics && topics[t.id] == t)
    }

    /** What the table says about a name is what its topic object holds. */
    ghost predicate NameOk(n: string)
      reads this, all
    {
      if n in topics
      then topics[n] in all && topics[n].id == n && BoundTo(table, n) == topics[n].bindings
      else BoundTo(table, n) == map[]
    }

    ghost predicate Valid()
      reads this, all
    {
      (forall t :: t in all ==> TopicOk(t)) && (forall n :: NameOk(n))
    }

    ghost predicate Vouches(sub: Subscription, r: Receipt)
      reads this
    {
      sub.topic in all && sub.topic.id == r.topic && sub.id == r.consumer && sub.topic.life == r.retired
    }

    constructor ()
      ensures Valid() && running && table == Table(map[], map[]) && all == {}
    {
      running := true;
      topics := map[];
      all := {};
      table := Table(map[], map[]);
    }

    /** A topic object for a name that has none open, with its first binding. */
    method SubscribeFirst(topic: string, consumer: string, sub: nat) returns (t: Topic)
      requires Valid() && (topic !in topics || topics[topic].done)
      modifies this`topics, this`all, this`table
      ensures Valid() && fresh(t) && all == old(all) + {t}
      ensures table == Bind(old(table), topic, consumer, sub)
      ensures Vouches(Subscription(consumer, t), Receipt(topic, consumer, RetiredCount(old(table), topic)))
    {
      assert NameOk(topic);
      t := new Topic(topic, RetiredCount(table, topic));
      t.Subscribe(consumer, sub);
      assert consumer in t.bindings;
      topics := topics[topic := t];
      all := all + {t};
      table := Bind(table, topic, consumer, sub);
      forall x | x in all ensures TopicOk(x) {
        if x != t { assert old(TopicOk(x)); }
      }
      forall n ensures NameOk(n) { assert old(NameOk(n)); }
    }

    /** Another binding on the open topic object of a name. */
    method SubscribeMore(topic: string, consumer: string, sub: nat) returns (t: Topic)
      requires Valid() && topic in topics && !topics[topic].done
      modifies this`table, topics[topic]
      ensures Valid() && !t.done && t == topics[topic]
      ensures table == Bind(old(table), topic, consumer, sub)
      ensures Vouches(Subscription(consumer, t), Receipt(topic, consumer, RetiredCount(old(table), topic)))
    {
      assert NameOk(topic) && TopicOk(topics[topic]);
      t := topics[topic];
      t.Subscribe(consumer, sub);
      assert consumer in t.bindings;
      table := Bind(table, topic, consumer, sub);
      forall x | x in all ensures TopicOk(x) { assert old(TopicOk(x)); }
      forall n ensures NameOk(n) { assert old(NameOk(n)); }
    }

    method Subscribe(topic: string, consumer: string, sub: nat) returns (r: Reply<Subscription>)
      requires Valid()
      modifies this, all
      ensures Valid() && running == old(running)
      ensures old(all) <= all && fresh(all - old(all))
      ensures !old(running) ==> r.NotRunning? && table == old(table)
      ensures old(running) ==> r.Done? && table == Bind(old(table), topic, consumer, sub)
      ensures old(running) ==> forall n, c, x: nat ::
        Binds(table, n, c, x) <==> if n == topic && c == consumer then x == sub else Binds(old(table), n, c, x)
      ensures r.Done? ==> Vouches(r.value, Receipt(topic, consumer, RetiredCount(old(table), topic)))
      ensures forall t :: t in old(all) && old(t.done) ==> t.done
    {
      if !running {
        return NotRunning;
      }
      assert NameOk(topic);
      BindExactly(table, topic, consumer, sub);
      var t: Topic;
      if topic !in topics || topics[topic].done {
        t := SubscribeFirst(topic, consumer, sub);
      } else {
        t := SubscribeMore(topic, consumer, sub);
      }
      r := Done(Subscription(consumer, t));
    }

    /** Cancelling acts on the object the subscription was made on; for a topic that has been
        retired since, the table says that nothing happens to its replacement. */
    method Cancel(sub: Subscription, ghost r: Receipt)
      requires Valid() && Vouches(sub, r)
      modifies this`table, sub.topic
      ensures Valid() && table == Unbind(old(table), r)
      ensures forall n, c, x: nat ::
        Binds(table, n, c, x) <==>
        Binds(old(table), n, c, x) && !(n == r.topic && c == r.consumer && r.retired == RetiredCount(old(table), n))
      ensures old(sub.topic.done) ==> table == old(table)
      ensures forall t :: t in all && old(t.done) ==> t.done
    {
      assert TopicOk(sub.topic) && NameOk(r.topic);
      sub.topic.Unsubscribe(sub.id);
      UnbindExactly(table, r);
      table := Unbind(table, r);
      forall x | x in all ensures TopicOk(x) { assert old(TopicOk(x)); }
      forall n ensures NameOk(n) { assert old(NameOk(n)); }
    }

    method Publish(topic: string) returns (r: Reply<seq<(string, nat)>>)
      requires Valid()
      ensures !running ==> r.NotRunning?
      ensures running ==> r.Done?
      ensures r.Done? ==> forall i, j :: 0 <= i < j < |r.value| ==> r.value[i] != r.value[j]
      ensures r.Done? ==>
        forall p :: p in r.value <==> p.0 in BoundTo(table, topic) && BoundTo(table, topic)[p.0] == p.1
    {
      if !running {
        return NotRunning;
      }
      assert NameOk(topic);
      var reached: seq<(string, nat)> := [];
      if topic in topics {
        reached := topics[topic].Send();
      }
      r := Done(reached);
    }
  }

  // ---- Any sequence of operations ----

  datatype Op =
    | SubscribeOp(topic: string, consumer: string, sub: nat)
    | CancelOp(index: nat)
    | PublishOp(topic: string)

  /** The bindings a publication of the topic reaches, as pairs. */
  function Reached(t: Table, topic: string): set<(string, nat)> { BoundTo(t, topic).Items }

  lemma ItemsAreEntries(b: Bindings)
    ensures forall p :: p in b.Items <==> p.0 in b && b[p.0] == p.1
  {
  }

  /** What one operation does to the table and the receipts, and the answer it gives. */
  function TableAfter(t: Table, receipts: seq<Receipt>, op: Op): Table {
    match op
    case SubscribeOp(topic, consumer, sub) => Bind(t, topic, consumer, sub)
    case CancelOp(i) => if i < |receipts| then Unbind(t, receipts[i]) else t
    case PublishOp(_) => t
  }

  function ReceiptsAfter(t: Table, receipts: seq<Receipt>, op: Op): seq<Receipt> {
    if op.SubscribeOp? then receipts + [Receipt(op.topic, op.consumer, RetiredCount(t, op.topic))] else receipts
  }

  function Answer(t: Table, op: Op): seq<set<(string, nat)>> {
    if op.PublishOp? then [Reached(t, op.topic)] else []
  }

  /** The table and the receipts after the first `n` operations, and the answers given by then.
      Subscriptions are cancelled by number, in the order they were made; other numbers are
      ignored. */
  function TableAt(ops: seq<Op>, n: nat): Table
    requires n <= |ops|
  {
    if n == 0 then Table(map[], map[]) else TableAfter(TableAt(ops, n - 1), ReceiptsAt(ops, n - 1), ops[n - 1])
  }

  function ReceiptsAt(ops: seq<Op>, n: nat): seq<Receipt>
    requires n <= |ops|
  {
    if n == 0 then [] else ReceiptsAfter(TableAt(ops, n - 1), ReceiptsAt(ops, n - 1), ops[n - 1])
  }

  function Answers(ops: seq<Op>, n: nat): seq<set<(string, nat)>>
    requires n <= |ops|
  {
    if n == 0 then [] else Answers(ops, n - 1) + Answer(TableAt(ops, n - 1), ops[n - 1])
  }

  // ---- Who is bound, told by the operations alone ----

  /** How many subscriptions and how many publications there are among the first `n`. */
  function SubsBefore(ops: seq<Op>, n: nat): nat
    requires n <= |ops|
  {
    if n == 0 then 0 else SubsBefore(ops, n - 1) + if ops[n - 1].SubscribeOp? then 1 else 0
  }

  function PublicationsBefore(ops: seq<Op>, n: nat): nat
    requires n <= |ops|
  {
    if n == 0 then 0 else PublicationsBefore(ops, n - 1) + if ops[n - 1].PublishOp? then 1 else 0
  }

  predicate Subscribes(op: Op, topic: string, consumer: string) {
    op.SubscribeOp? && op.topic == topic && op.consumer == consumer
  }

  /** Operation `r` is the subscription with this number. */
  ghost predicate Numbered(ops: seq<Op>, r: nat, number: nat) {
    r < |ops| && ops[r].SubscribeOp? && SubsBefore(ops, r) == number
  }

  /** The topic has had a subscriber at all times from operation `r` up to before operation `q`. */
  ghost predicate SameLife(ops: seq<Op>, r: nat, q: nat, topic: string)
    requires q <= |ops|
    decreases q, 3
  {
    forall m :: r < m <= q ==> Occupied(ops, m, topic)
  }

  ghost predicate Occupied(ops: seq<Op>, n: nat, topic: string)
    requires n <= |ops|
    decreases n, 2
  {
    exists consumer, sub :: Bound(ops, n, topic, consumer, sub)
  }

  /** Operation `q` cancels a subscription of the consumer to the present life of the topic. */
  ghost predicate Cancels(ops: seq<Op>, q: nat, topic: string, consumer: string)
    requires q < |ops|
    decreases q, 4
  {
    ops[q].CancelOp? && exists r ::
      0 <= r < q && Numbered(ops, r, ops[q].index) && Subscribes(ops[r], topic, consumer) && SameLife(ops, r, q, topic)
  }

  /** Nothing after operation `p` subscribes the consumer anew or cancels. */
  ghost predicate Lasts(ops: seq<Op>, p: nat, n: nat, topic: string, consumer: string)
    requires n <= |ops|
    decreases n, 0
  {
    forall q :: p < q < n ==> !Subscribes(ops[q], topic, consumer) && !Cancels(ops, q, topic, consumer)
  }

  /** Before operation `n` the consumer is bound to the topic with this subscriber. */
  ghost predicate Bound(ops: seq<Op>, n: nat, topic: string, consumer: string, sub: nat)
    requires n <= |ops|
    decreases n, 1
  {
    exists p :: 0 <= p < n && ops[p] == SubscribeOp(topic, consumer, sub) && Lasts(ops, p, n, topic, consumer)
  }

  lemma BoundStep(ops: seq<Op>, n: nat, topic: string, consumer: string, sub: nat)
    requires n < |ops|
    ensures Bound(ops, n + 1, topic, consumer, sub) <==>
      if Subscribes(ops[n], topic, consumer) then ops[n].sub == sub
      else Bound(ops, n, topic, consumer, sub) && !Cancels(ops, n, topic, consumer)
  {
    hide Cancels;
    if Subscribes(ops[n], topic, consumer) && ops[n].sub == sub {
      assert ops[n] == SubscribeOp(topic, consumer, sub) && Lasts(ops, n, n + 1, topic, consumer);
    }
    if p :| 0 <= p < n && ops[p] == SubscribeOp(topic, consumer, sub) && Lasts(ops, p, n, topic, consumer) {
      assert !Subscribes(ops[n], topic, consumer) && !Cancels(ops, n, topic, consumer) ==>
        Lasts(ops, p, n + 1, topic, consumer);
    }
    if p :| 0 <= p < n + 1 && ops[p] == SubscribeOp(topic, consumer, sub) && Lasts(ops, p, n + 1, topic, consumer) {
      if p < n { assert Lasts(ops, p, n, topic, consumer); }
    }
  }

  /** The table binds exactly the consumers the operations do. */
  ghost predicate TableOk(ops: seq<Op>, n: nat)
    requires n <= |ops|
  {
    forall topic, consumer, sub: nat :: Bound(ops, n, topic, consumer, sub) <==> Binds(TableAt(ops, n), topic, consumer, sub)
  }

  /** The receipt of subscription `r`, and whether it is one to the present life of its topic. */
  ghost predicate ReceiptOk(ops: seq<Op>, n: nat, r: nat)
    requires r < n <= |ops| && ops[r].SubscribeOp?
  {
    var i, t := SubsBefore(ops, r), TableAt(ops, n);
    && i < |ReceiptsAt(ops, n)|
    && ReceiptsAt(ops, n)[i].topic == ops[r].topic && ReceiptsAt(ops, n)[i].consumer == ops[r].consumer
    && ReceiptsAt(ops, n)[i].retired <= RetiredCount(t, ops[r].topic)
    && (ReceiptsAt(ops, n)[i].retired == RetiredCount(t, ops[r].topic) <==> SameLife(ops, r, n, ops[r].topic))
  }

  ghost predicate ReceiptsOk(ops: seq<Op>, n: nat)
    requires n <= |ops|
  {
    && |ReceiptsAt(ops, n)| == SubsBefore(ops, n)
    && forall r :: 0 <= r < n && ops[r].SubscribeOp? ==> ReceiptOk(ops, n, r)
  }

  lemma {:induction false} SubsGrow(ops: seq<Op>, r: nat, n: nat)
    requires r < n <= |ops| && ops[r].SubscribeOp?
    ensures SubsBefore(ops, r) < SubsBefore(ops, n)
    decreases n
  {
    if r < n - 1 { SubsGrow(ops, r, n - 1); }
  }

  lemma {:induction false} NumberFound(ops: seq<Op>, n: nat, number: nat) returns (r: nat)
    requires n <= |ops| && number < SubsBefore(ops, n)
    ensures r < n && Numbered(ops, r, number)
    decreases n
  {
    r := n - 1;
    if !(ops[n - 1].SubscribeOp? && SubsBefore(ops, n - 1) == number) { r := NumberFound(ops, n - 1, number); }
  }

  lemma NumberUnique(ops: seq<Op>, q: nat, r: nat, number: nat)
    requires Numbered(ops, q, number) && Numbered(ops, r, number)
    ensures q == r
  {
    if q < r { SubsGrow(ops, q, r); }
    if r < q { SubsGrow(ops, r, q); }
  }

  /** What the operation does, if it cancels something. */
  lemma CancelExactly(ops: seq<Op>, n: nat, topic: string, consumer: string)
    requires n < |ops| && ReceiptsOk(ops, n)
    ensures Cancels(ops, n, topic, consumer) <==>
      && ops[n].CancelOp? && ops[n].index < |ReceiptsAt(ops, n)|
      && var r := ReceiptsAt(ops, n)[ops[n].index];
         r.topic == topic && r.consumer == consumer && r.retired == RetiredCount(TableAt(ops, n), topic)
  {
    hide SameLife, TableAt, ReceiptsAt;
    if ops[n].CancelOp? {
      if ops[n].index < SubsBefore(ops, n) {
        var i := ops[n].index;
        var r := NumberFound(ops, n, i);
        assert ReceiptOk(ops, n, r);
        if q :| 0 <= q < n && Numbered(ops, q, i) && Subscribes(ops[q], topic, consumer) && SameLife(ops, q, n, topic) {
          NumberUnique(ops, q, r, i);
        }
      }
    }
  }

  lemma NextTableOk(ops: seq<Op>, n: nat)
    requires n < |ops| && TableOk(ops, n) && ReceiptsOk(ops, n)
    ensures TableOk(ops, n + 1)
  {
    hide Cancels, Bound, ReceiptsAt, ReceiptsOk;
    var m := n + 1;
    forall topic, consumer, sub: nat
      ensures Bound(ops, m, topic, consumer, sub) <==> Binds(TableAt(ops, m), topic, consumer, sub)
    {
      BoundStep(ops, n, topic, consumer, sub);
      CancelExactly(ops, n, topic, consumer);
    }
  }

  lemma OccupiedExactly(ops: seq<Op>, n: nat, topic: string)
    requires n <= |ops| && TableOk(ops, n)
    ensures Occupied(ops, n, topic) <==> BoundTo(TableAt(ops, n), topic) != map[]
  {
    hide Bound, TableAt;
    var b := BoundTo(TableAt(ops, n), topic);
    if b != map[] {
      var consumer :| consumer in b;
      assert Binds(TableAt(ops, n), topic, consumer, b[consumer]);
    }
  }

  lemma LifeStep(ops: seq<Op>, r: nat, n: nat, topic: string)
    requires r < n < |ops|
    ensures SameLife(ops, r, n + 1, topic) <==> SameLife(ops, r, n, topic) && Occupied(ops, n + 1, topic)
    ensures SameLife(ops, r, n, topic) ==> Occupied(ops, n, topic)
  {
    hide Occupied;
  }

  /** A topic's count goes up exactly when an operation leaves it empty. */
  lemma CountStep(ops: seq<Op>, n: nat, topic: string)
    requires n < |ops|
    ensures var t, t' := TableAt(ops, n), TableAt(ops, n + 1);
      && RetiredCount(t, topic) <= RetiredCount(t', topic)
      && (RetiredCount(t', topic) > RetiredCount(t, topic) ==> BoundTo(t', topic) == map[])
      && (BoundTo(t, topic) != map[] && BoundTo(t', topic) == map[] ==> RetiredCount(t', topic) > RetiredCount(t, topic))
  {
    hide ReceiptsAt;
  }

  lemma OldReceiptOk(ops: seq<Op>, n: nat, r: nat)
    requires r < n < |ops| && ops[r].SubscribeOp? && ReceiptOk(ops, n, r) && TableOk(ops, n) && TableOk(ops, n + 1)
    ensures ReceiptOk(ops, n + 1, r)
  {
    hide Bound, SameLife, TableOk, TableAt, Occupied;
    var topic := ops[r].topic;
    LifeStep(ops, r, n, topic);
    OccupiedExactly(ops, n, topic);
    OccupiedExactly(ops, n + 1, topic);
    CountStep(ops, n, topic);
    assert ReceiptsAt(ops, n) <= ReceiptsAt(ops, n + 1);
  }

  lemma NewReceiptOk(ops: seq<Op>, n: nat)
    requires n < |ops| && ops[n].SubscribeOp? && TableOk(ops, n + 1) && |ReceiptsAt(ops, n)| == SubsBefore(ops, n)
    ensures ReceiptOk(ops, n + 1, n)
  {
    hide Bound, TableOk, Occupied;
    OccupiedExactly(ops, n + 1, ops[n].topic);
    assert ops[n].consumer in BoundTo(TableAt(ops, n + 1), ops[n].topic);
  }

  lemma NextReceiptsOk(ops: seq<Op>, n: nat)
    requires n < |ops| && TableOk(ops, n) && ReceiptsOk(ops, n) && TableOk(ops, n + 1)
    ensures ReceiptsOk(ops, n + 1)
  {
    hide Bound, TableOk, ReceiptOk, TableAt;
    forall r | 0 <= r < n + 1 && ops[r].SubscribeOp? ensures ReceiptOk(ops, n + 1, r) {
      if r < n { OldReceiptOk(ops, n, r); } else { NewReceiptOk(ops, n); }
    }
  }

  lemma {:induction false} TableExactly(ops: seq<Op>, n: nat)
    requires n <= |ops|
    ensures TableOk(ops, n) && ReceiptsOk(ops, n)
  {
    if n > 0 {
      TableExactly(ops, n - 1);
      hide TableOk, ReceiptsOk;
      NextTableOk(ops, n - 1);
      NextReceiptsOk(ops, n - 1);
    } else {
      hide Lasts;
    }
  }

  lemma {:induction false} AnswerAt(ops: seq<Op>, n: nat, m: nat)
    requires n < m <= |ops| && ops[n].PublishOp?
    ensures |Answers(ops, m)| == PublicationsBefore(ops, m) && PublicationsBefore(ops, n) < |Answers(ops, m)|
    ensures Answers(ops, m)[PublicationsBefore(ops, n)] == Reached(TableAt(ops, n), ops[n].topic)
    decreases m
  {
    hide TableAt;
    AnswersCount(ops, m - 1);
    if n < m - 1 { AnswerAt(ops, n, m - 1); }
  }

  lemma {:induction false} AnswersCount(ops: seq<Op>, n: nat)
    requires n <= |ops|
    ensures |Answers(ops, n)| == PublicationsBefore(ops, n)
  {
    hide TableAt;
    if n > 0 { AnswersCount(ops, n - 1); }
  }

  /** For every sequence of operations: publication `n` reaches a consumer with a subscriber if and
      only if an earlier subscription to the topic bound the two, and since then the consumer has
      neither subscribed to it anew nor cancelled a subscription to the present life of the topic. */
  lemma PublicationExactly(ops: seq<Op>, n: nat, consumer: string, sub: nat)
    requires n < |ops| && ops[n].PublishOp?
    ensures PublicationsBefore(ops, n) < |Answers(ops, |ops|)|
    ensures (consumer, sub) in Answers(ops, |ops|)[PublicationsBefore(ops, n)] <==> Bound(ops, n, ops[n].topic, consumer, sub)
  {
    hide Bound, TableAt, Answers, ReceiptsOk;
    AnswerAt(ops, n, |ops|);
    TableExactly(ops, n);
    ItemsAreEntries(BoundTo(TableAt(ops, n), ops[n].topic));
    assert Bound(ops, n, ops[n].topic, consumer, sub) <==> Binds(TableAt(ops, n), ops[n].topic, consumer, sub);
  }

  ghost predicate AllVouched(bus: Bus, subs: seq<Subscription>, receipts: seq<Receipt>)
    reads bus
  {
    |receipts| == |subs| && forall j :: 0 <= j < |subs| ==> bus.Vouches(subs[j], receipts[j])
  }

  method Perform(bus: Bus, subs: seq<Subscription>, ghost receipts: seq<Receipt>, op: Op)
    returns (subs': seq<Subscription>, answer: seq<set<(string, nat)>>)
    requires bus.Valid() && bus.running && AllVouched(bus, subs, receipts)
    modifies bus, bus.all
    ensures bus.Valid() && bus.running && fresh(bus.all - old(bus.all))
    ensures bus.table == TableAfter(old(bus.table), receipts, op)
    ensures AllVouched(bus, subs', ReceiptsAfter(old(bus.table), receipts, op))
    ensures answer == Answer(old(bus.table), op)
  {
    subs', answer := subs, [];
    match op {
      case SubscribeOp(topic, consumer, sub) =>
        var r := bus.Subscribe(topic, consumer, sub);
        subs' := subs + [r.value];
      case CancelOp(k) =>
        if k < |subs| { bus.Cancel(subs[k], receipts[k]); }
      case PublishOp(topic) =>
        var r := bus.Publish(topic);
        ItemsAreEntries(BoundTo(bus.table, topic));
        assert (set p | p in r.value) == Reached(bus.table, topic);
        answer := [set p | p in r.value];
    }
  }

  /** Driven by any sequence of subscriptions, cancellations and publications, the bus answers
      exactly as the plain table does: publication `n` reaches exactly the consumers bound then. */
  method Drive(ops: seq<Op>) returns (answers: seq<set<(string, nat)>>)
    ensures answers == Answers(ops, |ops|)
    ensures |answers| == PublicationsBefore(ops, |ops|)
    ensures forall n :: 0 <= n < |ops| && ops[n].PublishOp? ==> PublicationsBefore(ops, n) < |answers|
    ensures forall n, consumer, sub: nat :: 0 <= n < |ops| && ops[n].PublishOp? ==>
      ((consumer, sub) in answers[PublicationsBefore(ops, n)] <==> Bound(ops, n, ops[n].topic, consumer, sub))
  {
    hide Bound;
    answers := DriveTable(ops);
    AnswersCount(ops, |ops|);
    forall n | 0 <= n < |ops| && ops[n].PublishOp? ensures PublicationsBefore(ops, n) < |answers| {
      AnswerAt(ops, n, |ops|);
    }
    forall n, consumer, sub: nat | 0 <= n < |ops| && ops[n].PublishOp?
      ensures (consumer, sub) in answers[PublicationsBefore(ops, n)] <==> Bound(ops, n, ops[n].topic, consumer, sub)
    {
      PublicationExactly(ops, n, consumer, sub);
    }
  }

  method DriveTable(ops: seq<Op>) returns (answers: seq<set<(string, nat)>>)
    ensures answers == Answers(ops, |ops|)
  {
    var bus := new Bus();
    var subs: seq<Subscription> := [];
    answers := [];
    for i := 0 to |ops|
      invariant bus.Valid() && bus.running && fresh(bus) && fresh(bus.all)
      invariant bus.table == TableAt(ops, i) && AllVouched(bus, subs, ReceiptsAt(ops, i))
      invariant answers == Answers(ops, i)
    {
      var answer;
      subs, answer := Perform(bus, subs, ReceiptsAt(ops, i), ops[i]);
      answers := answers + answer;
    }
  }
}
