/** The two-lane queue: items wait in a backend's work lane, move to its in-flight lane when a
    consumer takes them, and leave with an acknowledgement or go back with a refusal. Every
    move is one transaction; transactions of all producers and consumers interleave freely. */
module Queue {
  import opened Order

  // ---- Keys ----

  datatype Lane = Work | InFlight

  /** The key path.Join(queue, backend, lane, stamp); the stamp is written in hexadecimal. */
  datatype Key = Key(backend: string, lane: Lane, stamp: nat)

  const DIGITS: string := "0123456789abcdef"

  /** The low `k` hexadecimal digits of `n`, most significant first. */
  function Hex(n: nat, k: nat): (r: string)
    ensures |r| == k
    decreases k
  {
    if k == 0 then "" else Hex(n / 16, k - 1) + [DIGITS[n % 16]]
  }

  /** The timestamp of a queue key: eight big-endian bytes, as sixteen digits. */
  function TimeStamp(n: nat): string { Hex(n, 16) }

  function Pow16(k: nat): nat { if k == 0 then 1 else 16 * Pow16(k - 1) }

  lemma {:induction false} LessAppend(a: string, b: string, x: string, y: string)
    requires |a| == |b| && Less(a, b)
    ensures Less(a + x, b + y)
  {
    if a[0] == b[0] {
      LessAppend(a[1..], b[1..], x, y);
      assert (a + x)[1..] == a[1..] + x && (b + y)[1..] == b[1..] + y;
    }
  }

  lemma {:induction false} LessLast(p: string, c: char, d: char)
    requires c < d
    ensures Less(p + [c], p + [d])
  {
    if p != [] {
      LessLast(p[1..], c, d);
      assert (p + [c])[1..] == p[1..] + [c] && (p + [d])[1..] == p[1..] + [d];
    }
  }

  lemma DigitsAscend(c: nat, d: nat)
    requires c < d < 16
    ensures DIGITS[c] < DIGITS[d]
  {
  }

  /** Lexicographic order of the digits is the order of the numbers. */
  lemma {:induction false} HexAscends(n: nat, m: nat, k: nat)
    requires n < m < Pow16(k)
    ensures Less(Hex(n, k), Hex(m, k))
    decreases k
  {
    if n / 16 < m / 16 {
      HexAscends(n / 16, m / 16, k - 1);
      LessAppend(Hex(n / 16, k - 1), Hex(m / 16, k - 1), [DIGITS[n % 16]], [DIGITS[m % 16]]);
    } else {
      DigitsAscend(n % 16, m % 16);
      LessLast(Hex(n / 16, k - 1), DIGITS[n % 16], DIGITS[m % 16]);
    }
  }

  const UINT64: nat := 0x1_0000_0000_0000_0000

  lemma Pow16Is64Bits()
    ensures Pow16(16) == UINT64
  {
    assert Pow16(4) == 65536;
    assert Pow16(8) == 65536 * 65536 by { assert Pow16(6) == 65536 * 256; }
    assert Pow16(12) == 65536 * 65536 * 65536 by { assert Pow16(10) == 65536 * 65536 * 256; }
    assert Pow16(16) == 65536 * 65536 * 65536 * 65536 by { assert Pow16(14) == 65536 * 65536 * 65536 * 256; }
  }

  /** For all 64-bit clock readings: equal stamps mean equal readings, and stamps sort as readings. */
  lemma TimeStampOrder(n: nat, m: nat)
    requires n < UINT64 && m < UINT64
    ensures Less(TimeStamp(n), TimeStamp(m)) <==> n < m
    ensures TimeStamp(n) == TimeStamp(m) <==> n == m
  {
    Pow16Is64Bits();
    hide Hex, Pow16;
    LessTotal(TimeStamp(n), TimeStamp(m));
    if n < m { HexAscends(n, m, 16); }
    if m < n { HexAscends(m, n, 16); }
  }

  // ---- What the lanes hold ----

  function Addressee(kvs: map<Key, string>, k: Key): (string, string)
    requires k in kvs
  {
    (k.backend, kvs[k])
  }

  ghost function Some(kvs: map<Key, string>): (k: Key)
    requires kvs != map[]
    ensures k in kvs
  {
    var k :| k in kvs; k
  }

  /** The values under a set of keys, each with the backend it is for. */
  ghost function Contents(kvs: map<Key, string>): multiset<(string, string)> {
    if kvs == map[] then multiset{}
    else multiset{Addressee(kvs, Some(kvs))} + Contents(kvs - {Some(kvs)})
  }

  lemma ContentsUnfold(kvs: map<Key, string>)
    requires kvs != map[]
    ensures Contents(kvs) == multiset{Addressee(kvs, Some(kvs))} + Contents(kvs - {Some(kvs)})
  {
  }

  lemma {:induction false} ContentsRemove(kvs: map<Key, string>, k: Key)
    requires k in kvs
    ensures Contents(kvs) == multiset{Addressee(kvs, k)} + Contents(kvs - {k})
    decreases |kvs|
  {
    hide Contents, Some;
    var j := Some(kvs);
    ContentsUnfold(kvs);
    if j != k {
      ContentsRemove(kvs - {j}, k);
      ContentsRemove(kvs - {k}, j);
      assert kvs - {j} - {k} == kvs - {k} - {j};
      SumSwap(multiset{Addressee(kvs, j)}, multiset{Addressee(kvs, k)}, Contents(kvs - {j} - {k}));
    }
  }

  lemma SumSwap(a: multiset<(string, string)>, b: multiset<(string, string)>, c: multiset<(string, string)>)
    ensures a + (b + c) == b + (a + c)
    ensures a + (b + c) == (a + b) + c
  {
  }

  lemma ContentsInsert(kvs: map<Key, string>, k: Key, v: string)
    requires k !in kvs
    ensures Contents(kvs[k := v]) == Contents(kvs) + multiset{(k.backend, v)}
  {
    hide Contents;
    ContentsRemove(kvs[k := v], k);
    assert kvs[k := v] - {k} == kvs;
  }

  function InLane(kvs: map<Key, string>, lane: Lane): map<Key, string> {
    map k | k in kvs && k.lane == lane :: kvs[k]
  }

  lemma {:induction false} LanesPartition(kvs: map<Key, string>)
    ensures Contents(kvs) == Contents(InLane(kvs, Work)) + Contents(InLane(kvs, InFlight))
    decreases |kvs|
  {
    if kvs == map[] {
      assert InLane(kvs, Work) == map[] && InLane(kvs, InFlight) == map[];
    } else {
      var k := Some(kvs);
      LanesPartition(kvs - {k});
      LanesInsert(kvs, k);
    }
  }

  lemma LanesInsert(kvs: map<Key, string>, k: Key)
    requires k in kvs
    requires Contents(kvs - {k}) == Contents(InLane(kvs - {k}, Work)) + Contents(InLane(kvs - {k}, InFlight))
    ensures Contents(kvs) == Contents(InLane(kvs, Work)) + Contents(InLane(kvs, InFlight))
  {
    hide Contents, InLane;
    ContentsRemove(kvs, k);
    LaneWithout(kvs, k, Work);
    LaneWithout(kvs, k, InFlight);
    LaneMember(kvs, k);
    ContentsRemove(InLane(kvs, k.lane), k);
    SumSwap(multiset{Addressee(kvs, k)}, Contents(InLane(kvs - {k}, Work)), Contents(InLane(kvs - {k}, InFlight)));
  }

  lemma LaneMember(kvs: map<Key, string>, k: Key)
    requires k in kvs
    ensures k in InLane(kvs, k.lane) && Addressee(InLane(kvs, k.lane), k) == Addressee(kvs, k)
  {
  }

  lemma LaneWithout(kvs: map<Key, string>, k: Key, lane: Lane)
    ensures InLane(kvs - {k}, lane) == if k.lane == lane then InLane(kvs, lane) - {k} else InLane(kvs, lane)
  {
  }

  // ---- Transactions ----

  /** Move a value to a free key and drop its old one: swapLane, and tryDelete once its
      comparisons hold. Nothing checks that the old key is still there. */
  function Swap(kvs: map<Key, string>, current: Key, value: string, uKey: Key): map<Key, string> {
    kvs[uKey := value] - {current}
  }

  /** A move loses and invents nothing if and only if the old key is still there and still
      holds the value moved. */
  lemma SwapConservesExactly(kvs: map<Key, string>, current: Key, value: string, uKey: Key)
    requires uKey !in kvs && current != uKey && current.backend == uKey.backend
    ensures Contents(Swap(kvs, current, value, uKey)) == Contents(kvs) <==> current in kvs && kvs[current] == value
  {
    hide Contents;
    var rest := kvs - {current};
    var q := (uKey.backend, value);
    assert Swap(kvs, current, value, uKey) == rest[uKey := value];
    ContentsInsert(rest, uKey, value);
    if current in kvs {
      ContentsRemove(kvs, current);
      OneReplaced(Contents(rest), Addressee(kvs, current), q);
    } else {
      assert rest == kvs;
      OneAdded(Contents(kvs), q);
    }
  }

  lemma OneReplaced(rest: multiset<(string, string)>, p: (string, string), q: (string, string))
    ensures rest + multiset{q} == multiset{p} + rest <==> p == q
  {
    if p != q { assert (rest + multiset{q})[q] == (multiset{p} + rest)[q] + 1; }
  }

  lemma OneAdded(all: multiset<(string, string)>, q: (string, string))
    ensures all + multiset{q} != all
  {
    assert (all + multiset{q})[q] == all[q] + 1;
  }

  /** The writes of one Enqueue: the value under one new key for each backend. */
  function PutAll(kvs: map<Key, string>, keys: seq<Key>, value: string): map<Key, string>
    decreases |keys|
  {
    if keys == [] then kvs else PutAll(kvs[keys[0] := value], keys[1..], value)
  }

  predicate AllFree(kvs: map<Key, string>, keys: seq<Key>) {
    forall i :: 0 <= i < |keys| ==> keys[i] !in kvs
  }

  predicate Distinct(keys: seq<Key>) {
    forall i, j :: 0 <= i < j < |keys| ==> keys[i] != keys[j]
  }

  function Addressed(keys: seq<Key>, value: string): multiset<(string, string)> {
    if keys == [] then multiset{} else multiset{(keys[0].backend, value)} + Addressed(keys[1..], value)
  }

  lemma {:induction false} PutAllLookup(kvs: map<Key, string>, keys: seq<Key>, value: string)
    ensures PutAll(kvs, keys, value).Keys == kvs.Keys + set k | k in keys
    ensures forall k :: k in PutAll(kvs, keys, value) ==>
      PutAll(kvs, keys, value)[k] == if k in keys then value else kvs[k]
    decreases |keys|
  {
    if keys != [] {
      PutAllLookup(kvs[keys[0] := value], keys[1..], value);
      assert keys == [keys[0]] + keys[1..];
    }
  }

  lemma {:induction false} PutAllContents(kvs: map<Key, string>, keys: seq<Key>, value: string)
    requires AllFree(kvs, keys) && Distinct(keys)
    ensures Contents(PutAll(kvs, keys, value)) == Contents(kvs) + Addressed(keys, value)
    decreases |keys|
  {
    if keys != [] {
      ContentsInsert(kvs, keys[0], value);
      PutAllContents(kvs[keys[0] := value], keys[1..], value);
    }
  }

  // ---- State and steps ----

  datatype Phase = Idle | Chosen(key: Key, value: string)

  datatype Consumer = Consumer(backend: string, phase: Phase)

  /** An item handed to a consumer and not yet acknowledged or refused. */
  datatype Item = Item(consumer: nat, key: Key, value: string)

  /** `written` remembers what was last put under every key there ever was; `enqueued` and
      `acked` what producers put in and consumers finished, by backend. */
  datatype State = State(
    kvs: map<Key, string>,
    written: map<Key, string>,
    consumers: map<nat, Consumer>,
    held: set<Item>,
    enqueued: multiset<(string, string)>,
    acked: multiset<(string, string)>)

  datatype Step =
    | Join(c: nat, backend: string)
    | Enqueue(keys: seq<Key>, value: string)
    | Pick(c: nat, key: Key)
    | Notice(c: nat, key: Key)
    | TryDelete(c: nat, stamp: nat)
    | Ack(item: Item)
    | Nack(item: Item, stamp: nat)

  /** The first key of the work lane, as a read sorted by key returns it. */
  ghost predicate IsFirst(kvs: map<Key, string>, backend: string, k: Key) {
    && k in kvs && k.lane == Work && k.backend == backend
    && forall j :: j in kvs && j.lane == Work && j.backend == backend && j != k ==> Less(TimeStamp(k.stamp), TimeStamp(j.stamp))
  }

  /** The comparisons of the transactions of Enqueue, tryDelete and Nack hold. */
  ghost predicate CanEnqueue(s: State, keys: seq<Key>) {
    Distinct(keys) && AllFree(s.kvs, keys) && forall i :: 0 <= i < |keys| ==> keys[i].lane == Work
  }

  ghost predicate CanTake(s: State, c: nat, stamp: nat) {
    && c in s.consumers && s.consumers[c].phase.Chosen?
    && Key(s.consumers[c].backend, InFlight, stamp) !in s.kvs && s.consumers[c].phase.key in s.kvs
  }

  ghost predicate CanRefuse(s: State, item: Item, stamp: nat) {
    item in s.held && Key(item.key.backend, Work, stamp) !in s.kvs
  }

  ghost function Next(s: State, step: Step): State {
    match step
    case Join(c, backend) =>
      if c in s.consumers then s else s.(consumers := s.consumers[c := Consumer(backend, Idle)])
    case Enqueue(keys, value) =>
      if !CanEnqueue(s, keys) then s
      else s.(kvs := PutAll(s.kvs, keys, value), written := PutAll(s.written, keys, value),
              enqueued := s.enqueued + Addressed(keys, value))
    case Pick(c, key) =>
      if c !in s.consumers || !s.consumers[c].phase.Idle? || !IsFirst(s.kvs, s.consumers[c].backend, key) then s
      else s.(consumers := s.consumers[c := s.consumers[c].(phase := Chosen(key, s.kvs[key]))])
    case Notice(c, key) =>
      if c !in s.consumers || !s.consumers[c].phase.Idle? || key !in s.written
         || key.lane != Work || key.backend != s.consumers[c].backend then s
      else s.(consumers := s.consumers[c := s.consumers[c].(phase := Chosen(key, s.written[key]))])
    case TryDelete(c, stamp) =>
      if c !in s.consumers || !s.consumers[c].phase.Chosen? then s
      else
        var x := s.consumers[c];
        var uKey := Key(x.backend, InFlight, stamp);
        var idle := s.(consumers := s.consumers[c := x.(phase := Idle)]);
        if !CanTake(s, c, stamp) then idle
        else idle.(kvs := Swap(s.kvs, x.phase.key, x.phase.value, uKey), written := s.written[uKey := x.phase.value],
                   held := s.held + {Item(c, uKey, x.phase.value)})
    case Ack(item) =>
      if item !in s.held then s
      else s.(kvs := s.kvs - {item.key}, held := s.held - {item}, acked := s.acked + multiset{(item.key.backend, item.value)})
    case Nack(item, stamp) =>
      var uKey := Key(item.key.backend, Work, stamp);
      if !CanRefuse(s, item, stamp) then s
      else s.(kvs := Swap(s.kvs, item.key, item.value, uKey), written := s.written[uKey := item.value], held := s.held - {item})
  }

  ghost function Exec(s: State, steps: seq<Step>): State
    decreases |steps|
  {
    if steps == [] then s else Exec(Next(s, steps[0]), steps[1..])
  }

  ghost predicate Init(s: State) {
    && s.kvs == map[] && s.written == map[] && s.consumers == map[] && s.held == {}
    && s.enqueued == multiset{} && s.acked == multiset{}
  }

  // ---- Exclusivity ----

  /** The in-flight lane is exactly the items held, one holder each. */
  ghost predicate Exclusive(s: State) {
    && (forall i :: i in s.held ==> i.key in s.kvs && i.key.lane == InFlight)
    && (forall i, j :: i in s.held && j in s.held && i.key == j.key ==> i == j)
    && (forall k :: k in s.kvs && k.lane == InFlight ==> exists i :: i in s.held && i.key == k)
    && (forall c :: c in s.consumers && s.consumers[c].phase.Chosen? ==> s.consumers[c].phase.key.lane == Work)
  }

  lemma NextExclusive(s: State, step: Step)
    requires Exclusive(s)
    ensures Exclusive(Next(s, step))
  {
    hide IsFirst, Less;
    match step
    case Enqueue(keys, value) =>
      if CanEnqueue(s, keys) { EnqueueExclusive(s, keys, value); }
    case TryDelete(c, stamp) =>
      if c in s.consumers && s.consumers[c].phase.Chosen? { TakeExclusive(s, c, stamp); }
    case Ack(item) => if item in s.held { SettleExclusive(s, item, s.kvs - {item.key}, Next(s, step)); }
    case Pick(c, key) => if Next(s, step) != s { FirstIsInLane(s.kvs, s.consumers[c].backend, key); }
    case Nack(item, stamp) =>
      if CanRefuse(s, item, stamp) { SettleExclusive(s, item, Next(s, step).kvs, Next(s, step)); }
    case _ =>
  }

  lemma EnqueueExclusive(s: State, keys: seq<Key>, value: string)
    requires Exclusive(s) && forall i :: 0 <= i < |keys| ==> keys[i].lane == Work
    ensures Exclusive(s.(kvs := PutAll(s.kvs, keys, value), written := PutAll(s.written, keys, value),
                    enqueued := s.enqueued + Addressed(keys, value)))
  {
    PutAllLookup(s.kvs, keys, value);
  }

  lemma TakeExclusive(s: State, c: nat, stamp: nat)
    requires Exclusive(s) && c in s.consumers && s.consumers[c].phase.Chosen?
    ensures Exclusive(Next(s, TryDelete(c, stamp)))
  {
    var x, s' := s.consumers[c], Next(s, TryDelete(c, stamp));
    var uKey := Key(x.backend, InFlight, stamp);
    if uKey !in s.kvs && x.phase.key in s.kvs {
      var taken := Item(c, uKey, x.phase.value);
      forall k | k in s'.kvs && k.lane == InFlight ensures exists i :: i in s'.held && i.key == k {
        if k == uKey {
          assert taken in s'.held;
        } else {
          var i :| i in s.held && i.key == k;
          assert i in s'.held;
        }
      }
    }
  }

  lemma SettleExclusive(s: State, item: Item, kvs: map<Key, string>, s': State)
    requires Exclusive(s) && item in s.held
    requires s'.kvs == kvs && s'.held == s.held - {item} && s'.consumers == s.consumers
    requires forall k: Key :: k.lane == InFlight ==> (k in kvs <==> k in s.kvs && k != item.key)
    ensures Exclusive(s')
  {
    forall k | k in s'.kvs && k.lane == InFlight ensures exists i :: i in s'.held && i.key == k {
      var i :| i in s.held && i.key == k;
      assert i in s'.held;
    }
  }

  lemma {:induction false} ExecExclusive(s: State, steps: seq<Step>)
    requires Exclusive(s)
    ensures Exclusive(Exec(s, steps))
    decreases |steps|
  {
    if steps != [] {
      NextExclusive(s, steps[0]);
      ExecExclusive(Next(s, steps[0]), steps[1..]);
    }
  }

  /** In every run, colliding timestamps included: two items held under the same in-flight key
      are one item with one holder, and the in-flight lane holds exactly the items held. */
  lemma NoSharedItems(s: State, steps: seq<Step>)
    requires Init(s)
    ensures var t := Exec(s, steps);
      && (forall i, j :: i in t.held && j in t.held && i.key == j.key ==> i.consumer == j.consumer && i.value == j.value)
      && (forall k: Key :: k.lane == InFlight ==> (k in t.kvs <==> exists i :: i in t.held && i.key == k))
  {
    ExecExclusive(s, steps);
  }

  // ---- Conservation ----

  /** The keys a step would write to a work lane have never been written before. */
  ghost predicate FreshStep(s: State, step: Step) {
    match step
    case Enqueue(keys, _) => AllFree(s.written, keys)
    case Nack(item, stamp) => Key(item.key.backend, Work, stamp) !in s.written
    case _ => true
  }

  ghost predicate Fresh(s: State, steps: seq<Step>)
    decreases |steps|
  {
    steps == [] || (FreshStep(s, steps[0]) && Fresh(Next(s, steps[0]), steps[1..]))
  }

  /** Nobody holds or remembers a value other than the one written under its key. */
  ghost predicate Truthful(s: State) {
    && (forall k :: k in s.kvs ==> k in s.written && s.kvs[k] == s.written[k])
    && (forall c :: c in s.consumers && s.consumers[c].phase.Chosen? ==>
          (var x := s.consumers[c];
           && x.phase.key in s.written && s.written[x.phase.key] == x.phase.value
           && x.phase.key.backend == x.backend && x.phase.key.lane == Work))
    && (forall i :: i in s.held ==> i.key in s.kvs && s.kvs[i.key] == i.value && i.key.lane == InFlight)
    && (forall i, j :: i in s.held && j in s.held && i.key == j.key ==> i == j)
  }

  ghost predicate Conserved(s: State) { s.enqueued == Contents(s.kvs) + s.acked }

  lemma EnqueueTruthful(s: State, keys: seq<Key>, value: string)
    requires Truthful(s) && AllFree(s.written, keys)
    ensures Truthful(s.(kvs := PutAll(s.kvs, keys, value), written := PutAll(s.written, keys, value),
                    enqueued := s.enqueued + Addressed(keys, value)))
  {
    PutAllLookup(s.kvs, keys, value);
    PutAllLookup(s.written, keys, value);
  }

  lemma NextTruthful(s: State, step: Step)
    requires Truthful(s) && FreshStep(s, step)
    ensures Truthful(Next(s, step))
  {
    hide IsFirst, PutAll, Addressed;
    match step
    case Enqueue(keys, value) => EnqueueTruthful(s, keys, value);
    case Pick(c, key) => if Next(s, step) != s { FirstIsInLane(s.kvs, s.consumers[c].backend, key); }
    case TryDelete(c, stamp) => TakeTruthful(s, c, stamp);
    case _ =>
  }

  lemma TakeTruthful(s: State, c: nat, stamp: nat)
    requires Truthful(s)
    ensures Truthful(Next(s, TryDelete(c, stamp)))
  {
    hide IsFirst, PutAll, Addressed;
  }

  lemma FirstIsInLane(kvs: map<Key, string>, backend: string, k: Key)
    requires IsFirst(kvs, backend, k)
    ensures k in kvs && k.lane == Work && k.backend == backend
  {
  }

  lemma NextConserved(s: State, step: Step)
    requires Truthful(s) && Conserved(s) && FreshStep(s, step)
    ensures Conserved(Next(s, step))
  {
    hide IsFirst, Less, Contents, Truthful, FreshStep;
    match step
    case Enqueue(keys, value) => if CanEnqueue(s, keys) { EnqueueConserves(s, keys, value); }
    case TryDelete(c, stamp) => if CanTake(s, c, stamp) { TakeConserves(s, c, stamp); }
    case Ack(item) => if item in s.held { AckConserves(s, item); }
    case Nack(item, stamp) => if CanRefuse(s, item, stamp) { RefuseConserves(s, item, stamp); }
    case _ =>
  }

  lemma EnqueueConserves(s: State, keys: seq<Key>, value: string)
    requires Conserved(s) && CanEnqueue(s, keys)
    ensures Conserved(Next(s, Enqueue(keys, value)))
  {
    hide Contents;
    PutAllContents(s.kvs, keys, value);
  }

  lemma TakeConserves(s: State, c: nat, stamp: nat)
    requires Truthful(s) && Conserved(s) && CanTake(s, c, stamp)
    ensures Conserved(Next(s, TryDelete(c, stamp)))
  {
    hide Contents;
    var x := s.consumers[c];
    SwapConservesExactly(s.kvs, x.phase.key, x.phase.value, Key(x.backend, InFlight, stamp));
  }

  lemma AckConserves(s: State, item: Item)
    requires Truthful(s) && Conserved(s) && item in s.held
    ensures Conserved(Next(s, Ack(item)))
  {
    hide Contents;
    ContentsRemove(s.kvs, item.key);
  }

  lemma RefuseConserves(s: State, item: Item, stamp: nat)
    requires Truthful(s) && Conserved(s) && CanRefuse(s, item, stamp)
    ensures Conserved(Next(s, Nack(item, stamp)))
  {
    hide Contents;
    SwapConservesExactly(s.kvs, item.key, item.value, Key(item.key.backend, Work, stamp));
  }

  lemma {:induction false} ExecConserved(s: State, steps: seq<Step>)
    requires Truthful(s) && Conserved(s) && Fresh(s, steps)
    ensures Conserved(Exec(s, steps))
    decreases |steps|
  {
    hide Truthful, Conserved, Next, FreshStep;
    if steps != [] {
      NextTruthful(s, steps[0]);
      NextConserved(s, steps[0]);
      ExecConserved(Next(s, steps[0]), steps[1..]);
    }
  }

  /** In every run with fresh timestamps in the work lanes, and each item settled at most once,
      whatever was enqueued for a backend is in its work lane, in its in-flight lane or
      acknowledged: nothing is lost and nothing appears twice. */
  lemma QueueConserves(s: State, steps: seq<Step>)
    requires Init(s) && Fresh(s, steps)
    ensures var t := Exec(s, steps);
      t.enqueued == Contents(InLane(t.kvs, Work)) + Contents(InLane(t.kvs, InFlight)) + t.acked
  {
    ExecConserved(s, steps);
    LanesPartition(Exec(s, steps).kvs);
  }

  // ---- Order ----

  /** The key a read finds first is the oldest one in the lane. */
  lemma FirstIsOldest(kvs: map<Key, string>, backend: string, k: Key)
    requires IsFirst(kvs, backend, k)
    requires forall j :: j in kvs ==> j.stamp < UINT64
    ensures forall j :: j in kvs && j.lane == Work && j.backend == backend ==> k.stamp <= j.stamp
  {
    forall j | j in kvs && j.lane == Work && j.backend == backend ensures k.stamp <= j.stamp {
      TimeStampOrder(k.stamp, j.stamp);
    }
  }
}
