/** Items settled twice. Nothing keeps a consumer from acknowledging or refusing an item that it has
    settled before: an acknowledgement deletes a key that is gone, but a refusal writes the value
    once more. */
module QueueTwice {
  import opened Queue

  /** The queue, all items ever handed out, and what second refusals have written. */
  datatype Record = Record(queue: State, given: set<Item>, again: multiset<(string, string)>)

  datatype Move =
    | Once(step: Step)
    | AckAgain(item: Item)
    | RefuseAgain(item: Item, stamp: nat)

  ghost predicate Settled(r: Record, item: Item) { item in r.given && item !in r.queue.held }

  /** The comparison of the refusal's transaction holds; it does not look at the item's own key. */
  ghost predicate RefusesAgain(r: Record, item: Item, stamp: nat) {
    Settled(r, item) && Key(item.key.backend, Work, stamp) !in r.queue.kvs
  }

  ghost function Advance(r: Record, move: Move): Record {
    var s := r.queue;
    match move
    case Once(step) => Record(Next(s, step), r.given + Next(s, step).held, r.again)
    case AckAgain(item) => if !Settled(r, item) then r else r.(queue := s.(kvs := s.kvs - {item.key}))
    case RefuseAgain(item, stamp) =>
      var uKey := Key(item.key.backend, Work, stamp);
      if !RefusesAgain(r, item, stamp) then r
      else Record(s.(kvs := Swap(s.kvs, item.key, item.value, uKey), written := s.written[uKey := item.value]),
                  r.given, r.again + multiset{(item.key.backend, item.value)})
  }

  ghost function Play(r: Record, moves: seq<Move>): Record
    decreases |moves|
  {
    if moves == [] then r else Play(Advance(r, moves[0]), moves[1..])
  }

  ghost predicate Begin(r: Record) { Init(r.queue) && r.given == {} && r.again == multiset{} }

  /** The keys a move would write, in either lane, have never been written before. */
  ghost predicate FreshMove(r: Record, move: Move) {
    match move
    case Once(step) =>
      && FreshStep(r.queue, step)
      && (step.TryDelete? && step.c in r.queue.consumers ==>
            Key(r.queue.consumers[step.c].backend, InFlight, step.stamp) !in r.queue.written)
    case AckAgain(_) => true
    case RefuseAgain(item, stamp) => Key(item.key.backend, Work, stamp) !in r.queue.written
  }

  ghost predicate FreshMoves(r: Record, moves: seq<Move>)
    decreases |moves|
  {
    moves == [] || (FreshMove(r, moves[0]) && FreshMoves(Advance(r, moves[0]), moves[1..]))
  }

  // ---- What every fresh run keeps ----

  /** A settled item's key is gone for good. */
  ghost predicate GivenOk(r: Record) {
    && r.queue.held <= r.given
    && (forall i :: i in r.given ==> i.key.lane == InFlight && i.key in r.queue.written)
    && (forall i :: Settled(r, i) ==> i.key !in r.queue.kvs)
  }

  /** Everything is accounted for, if what was written twice counts twice. */
  ghost predicate Balanced(r: Record) {
    r.queue.enqueued + r.again == Contents(r.queue.kvs) + r.queue.acked
  }

  ghost predicate Kept(r: Record) { Truthful(r.queue) && GivenOk(r) && Balanced(r) }

  lemma EnqueueGiven(r: Record, keys: seq<Key>, value: string)
    requires GivenOk(r)
    ensures GivenOk(Advance(r, Once(Enqueue(keys, value))))
  {
    PutAllLookup(r.queue.kvs, keys, value);
    PutAllLookup(r.queue.written, keys, value);
    hide PutAll;
  }

  lemma OnceGiven(r: Record, step: Step)
    requires GivenOk(r) && Truthful(r.queue) && FreshMove(r, Once(step))
    ensures GivenOk(Advance(r, Once(step)))
  {
    hide IsFirst, PutAll, Addressed;
    match step
    case Enqueue(keys, value) => EnqueueGiven(r, keys, value);
    case TryDelete(c, stamp) => TakeGiven(r, c, stamp);
    case _ =>
  }

  lemma TakeGiven(r: Record, c: nat, stamp: nat)
    requires GivenOk(r) && FreshMove(r, Once(TryDelete(c, stamp)))
    ensures GivenOk(Advance(r, Once(TryDelete(c, stamp))))
  {
  }

  /** A step of the queue keeps the balance, whatever has been written twice before. */
  lemma OnceBalanced(r: Record, step: Step)
    requires Truthful(r.queue) && Balanced(r) && FreshStep(r.queue, step)
    ensures Balanced(Advance(r, Once(step)))
  {
    hide Contents, Truthful, FreshStep, IsFirst;
    // the queue with the second copies counted as enqueued conserves them
    var s := r.queue;
    var q := s.(enqueued := s.enqueued + r.again);
    assert Conserved(q);
    SameButEnqueued(s, q, step);
    SameTruth(s, q, step);
    NextConserved(q, step);
    var grown := Next(s, step).enqueued;
    assert Next(q, step).enqueued == grown + r.again by { EnqueuedGrows(s, q, step, r.again); }
  }

  lemma SameButEnqueued(s: State, q: State, step: Step)
    requires q == s.(enqueued := q.enqueued)
    ensures Next(q, step) == Next(s, step).(enqueued := Next(q, step).enqueued)
  {
    hide IsFirst, PutAll, Addressed, Distinct, AllFree, Swap;
    match step
    case TryDelete(c, stamp) => SameTake(s, q, c, stamp);
    case Enqueue(keys, value) => SameEnqueue(s, q, keys, value);
    case _ =>
  }

  lemma SameTake(s: State, q: State, c: nat, stamp: nat)
    requires q == s.(enqueued := q.enqueued)
    ensures Next(q, TryDelete(c, stamp)) == Next(s, TryDelete(c, stamp)).(enqueued := q.enqueued)
  {
    hide Swap;
  }

  lemma SameEnqueue(s: State, q: State, keys: seq<Key>, value: string)
    requires q == s.(enqueued := q.enqueued)
    ensures Next(q, Enqueue(keys, value)) == Next(s, Enqueue(keys, value)).(enqueued := Next(q, Enqueue(keys, value)).enqueued)
  {
    hide PutAll, Addressed, Distinct, AllFree;
  }

  lemma SameTruth(s: State, q: State, step: Step)
    requires q == s.(enqueued := q.enqueued) && Truthful(s) && FreshStep(s, step)
    ensures Truthful(q) && FreshStep(q, step)
  {
  }

  lemma EnqueuedGrows(s: State, q: State, step: Step, again: multiset<(string, string)>)
    requires q == s.(enqueued := s.enqueued + again)
    ensures Next(q, step).enqueued == Next(s, step).enqueued + again
  {
    hide IsFirst, PutAll, Addressed;
    if step.Enqueue? {
      assert s.enqueued + again + Addressed(step.keys, step.value) == s.enqueued + Addressed(step.keys, step.value) + again;
    }
  }

  lemma AckAgainKept(r: Record, item: Item)
    requires Kept(r)
    ensures Kept(Advance(r, AckAgain(item)))
  {
    hide Contents;
    if Settled(r, item) {
      assert r.queue.kvs - {item.key} == r.queue.kvs;
      assert Advance(r, AckAgain(item)) == r;
    }
  }

  lemma RefuseAgainKept(r: Record, item: Item, stamp: nat)
    requires Kept(r) && FreshMove(r, RefuseAgain(item, stamp))
    ensures Kept(Advance(r, RefuseAgain(item, stamp)))
  {
    hide Contents;
    var s, uKey := r.queue, Key(item.key.backend, Work, stamp);
    if RefusesAgain(r, item, stamp) {
      var r' := Advance(r, RefuseAgain(item, stamp));
      assert item.key !in s.kvs;
      assert r'.queue.kvs == s.kvs[uKey := item.value];
      ContentsInsert(s.kvs, uKey, item.value);
      assert Truthful(r'.queue) && GivenOk(r');
      OneMore(s.enqueued, r.again, Contents(s.kvs), s.acked, (item.key.backend, item.value));
    }
  }

  lemma OneMore(e: multiset<(string, string)>, a: multiset<(string, string)>, c: multiset<(string, string)>,
                d: multiset<(string, string)>, x: (string, string))
    requires e + a == c + d
    ensures e + (a + multiset{x}) == (multiset{x} + c) + d
    ensures e + (a + multiset{x}) == (c + multiset{x}) + d
  {
    assert e + (a + multiset{x}) == (e + a) + multiset{x};
    assert (multiset{x} + c) + d == (c + d) + multiset{x};
    assert (c + multiset{x}) + d == (c + d) + multiset{x};
  }

  lemma MoveKept(r: Record, move: Move)
    requires Kept(r) && FreshMove(r, move)
    ensures Kept(Advance(r, move))
  {
    hide Contents, Next, Truthful, GivenOk, Balanced;
    match move
    case Once(step) => StepKept(r, step);
    case AckAgain(item) => AckAgainKept(r, item);
    case RefuseAgain(item, stamp) => RefuseAgainKept(r, item, stamp);
  }

  lemma StepKept(r: Record, step: Step)
    requires Kept(r) && FreshMove(r, Once(step))
    ensures Kept(Advance(r, Once(step)))
  {
    hide Contents, Next, Truthful, GivenOk, Balanced;
    NextTruthful(r.queue, step);
    OnceGiven(r, step);
    OnceBalanced(r, step);
  }

  lemma {:induction false} PlayKept(r: Record, moves: seq<Move>)
    requires Kept(r) && FreshMoves(r, moves)
    ensures Kept(Play(r, moves))
    decreases |moves|
  {
    hide Kept, Advance, FreshMove;
    if moves != [] {
      MoveKept(r, moves[0]);
      PlayKept(Advance(r, moves[0]), moves[1..]);
    }
  }

  /** In every run with fresh timestamps, items settled as often as one likes: the lanes and what
      was acknowledged hold what was enqueued and once more what second refusals wrote. So the
      queue conserves its contents if and only if no second refusal took effect. */
  lemma ConservesExactly(r: Record, moves: seq<Move>)
    requires Begin(r) && FreshMoves(r, moves)
    ensures var t := Play(r, moves);
      var kept := Contents(InLane(t.queue.kvs, Work)) + Contents(InLane(t.queue.kvs, InFlight)) + t.queue.acked;
      t.queue.enqueued + t.again == kept && (t.queue.enqueued == kept <==> t.again == multiset{})
  {
    PlayKept(r, moves);
    var t := Play(r, moves);
    LanesPartition(t.queue.kvs);
    hide Play, Contents, Truthful, GivenOk;
    if t.again != multiset{} {
      var x :| x in t.again;
      assert (t.queue.enqueued + t.again)[x] > t.queue.enqueued[x];
    } else {
      assert t.queue.enqueued + t.again == t.queue.enqueued;
    }
  }

  // ---- A run that does not conserve ----

  lemma PlayCons(r: Record, move: Move, rest: seq<Move>)
    ensures Play(r, [move] + rest) == Play(Advance(r, move), rest)
    ensures FreshMoves(r, [move] + rest) <==> FreshMove(r, move) && FreshMoves(Advance(r, move), rest)
  {
    hide Advance, FreshMove;
    assert ([move] + rest)[0] == move && ([move] + rest)[1..] == rest;
  }

  /** A fresh run leads from `r` to `t`. */
  ghost predicate Leads(r: Record, moves: seq<Move>, t: Record) { Play(r, moves) == t && FreshMoves(r, moves) }

  lemma LeadsOn(r: Record, moves: seq<Move>, t: Record, move: Move)
    requires Leads(r, moves, t) && FreshMove(t, move)
    ensures Leads(r, moves + [move], Advance(t, move))
  {
    hide Play, FreshMoves, Advance, FreshMove;
    PlaySnoc(r, moves, move);
  }

  lemma LeadsNowhere(r: Record)
    ensures Leads(r, [], r)
  {
  }

  /** The work lane of `b` has one item, which the only consumer has picked. */
  ghost predicate Picked(r: Record, b: string, value: string) {
    var k := Key(b, Work, 0);
    && r.queue.kvs == map[k := value] && r.queue.written == map[k := value] && r.queue.held == {}
    && r.queue.consumers == map[0 := Consumer(b, Chosen(k, value))] && r.given == {} && r.again == multiset{}
  }

  lemma PickIt(r: Record, b: string, value: string) returns (moves: seq<Move>, t: Record)
    requires Begin(r)
    ensures Leads(r, moves, t) && Picked(t, b, value)
  {
    var k := Key(b, Work, 0);
    var enqueue, join, pick := Once(Enqueue([k], value)), Once(Join(0, b)), Once(Pick(0, k));
    Enqueued(r, b, value);
    var r1 := Advance(r, enqueue);
    assert FreshMove(r, enqueue);
    hide PutAll, Play, FreshMoves, Leads;
    LeadsNowhere(r);
    LeadsOn(r, [], r, enqueue);
    var r2 := Advance(r1, join);
    LeadsOn(r, [] + [enqueue], r1, join);
    t := Advance(r2, pick);
    LeadsOn(r, [] + [enqueue] + [join], r2, pick);
    moves := [] + [enqueue] + [join] + [pick];
    assert t.queue.consumers == map[0 := Consumer(b, Chosen(k, value))];
  }

  /** An item enqueued, dequeued and acknowledged: done with, and nothing left in the queue. */
  ghost predicate Finished(r: Record, item: Item, b: string, value: string) {
    && item.key == Key(b, InFlight, 1) && item.value == value && item in r.given
    && r.queue.kvs == map[] && r.queue.held == {} && r.again == multiset{}
    && r.queue.written.Keys == {Key(b, Work, 0), Key(b, InFlight, 1)}
  }

  lemma Finish(r: Record, b: string, value: string) returns (moves: seq<Move>, t: Record, item: Item)
    requires Begin(r)
    ensures Leads(r, moves, t) && Finished(t, item, b, value)
  {
    hide PutAll, Play, FreshMoves, Leads, Begin;
    var a, r1 := PickIt(r, b, value);
    var take := Once(TryDelete(0, 1));
    item := Item(0, Key(b, InFlight, 1), value);
    var r2 := Advance(r1, take);
    assert r2.queue.kvs == map[item.key := value] && r2.queue.held == {item};
    LeadsOn(r, a, r1, take);
    t := Advance(r2, Once(Ack(item)));
    assert t.queue.kvs == map[] && t.queue.held == {};
    LeadsOn(r, a + [take], r2, Once(Ack(item)));
    moves := a + [take] + [Once(Ack(item))];
  }

  lemma Enqueued(r: Record, b: string, value: string)
    requires Begin(r)
    ensures var k := Key(b, Work, 0); var r' := Advance(r, Once(Enqueue([k], value)));
      && r'.queue.kvs == map[k := value] && r'.queue.written == map[k := value]
      && r'.queue.held == {} && r'.queue.consumers == map[]
      && r'.given == {} && r'.again == multiset{}
  {
    var k := Key(b, Work, 0);
    PutAllLookup(r.queue.kvs, [k], value);
    PutAllLookup(r.queue.written, [k], value);
  }

  /** For every backend and value there is a run with fresh timestamps in which an item that has
      been acknowledged is refused, and waits in the work lane once more. */
  lemma RefusedAfterAck(r: Record, b: string, value: string) returns (moves: seq<Move>)
    requires Begin(r)
    ensures FreshMoves(r, moves)
    ensures var t := Play(r, moves);
      && t.queue.kvs == map[Key(b, Work, 2) := value]
      && t.queue.enqueued != Contents(InLane(t.queue.kvs, Work)) + Contents(InLane(t.queue.kvs, InFlight)) + t.queue.acked
  {
    hide Play, FreshMoves, Contents, InLane;
    var before, t, item := Finish(r, b, value);
    var again := RefuseAgain(item, 2);
    assert Advance(t, again).queue.kvs == map[Key(b, Work, 2) := value];
    LeadsOn(r, before, t, again);
    moves := before + [again];
    ConservesExactly(r, moves);
    assert (b, value) in Advance(t, again).again;
  }

  lemma {:induction false} PlaySnoc(r: Record, moves: seq<Move>, move: Move)
    ensures Play(r, moves + [move]) == Advance(Play(r, moves), move)
    ensures FreshMoves(r, moves + [move]) <==> FreshMoves(r, moves) && FreshMove(Play(r, moves), move)
    decreases |moves|
  {
    hide Advance, FreshMove;
    if moves == [] {
      assert [] + [move] == [move] + [];
      PlayCons(r, move, []);
    } else {
      assert moves + [move] == [moves[0]] + (moves[1..] + [move]);
      PlayCons(r, moves[0], moves[1..] + [move]);
      PlaySnoc(Advance(r, moves[0]), moves[1..], move);
    }
  }
}
