/** First in, first out: what the consumers of a backend receive, however many there are, when the
    clock moves on between writes. */
module QueueFifo {
  import opened Order
  import opened Queue

  /** The keys of an Enqueue that are addressed to a backend. */
  function KeysFor(keys: seq<Key>, b: string): (r: seq<Key>)
    ensures forall k :: k in r <==> k in keys && k.backend == b
    decreases |keys|
  {
    if keys == [] then []
    else
      assert keys == [keys[0]] + keys[1..];
      (if keys[0].backend == b then [keys[0]] else []) + KeysFor(keys[1..], b)
  }

  /** The stamp is later than all before in the work lane of `b`. */
  ghost predicate Later(s: State, b: string, stamp: nat) {
    stamp < UINT64 && forall j :: j in s.written && j.lane == Work && j.backend == b ==> j.stamp < stamp
  }

  /** The consumers of backend `b` read the lane rather than wait for a put. An Enqueue writes one
      key per backend, and so does a refusal, later than all before. */
  ghost predicate FifoStep(s: State, step: Step, b: string) {
    match step
    case Enqueue(keys, _) =>
      |KeysFor(keys, b)| <= 1 && forall k :: k in KeysFor(keys, b) ==> Later(s, b, k.stamp)
    case Notice(d, _) => d in s.consumers ==> s.consumers[d].backend != b
    case Nack(item, stamp) => item.key.backend == b ==> Later(s, b, stamp)
    case _ => true
  }

  ghost predicate FifoRun(s: State, steps: seq<Step>, b: string)
    decreases |steps|
  {
    steps == [] || (FifoStep(s, steps[0], b) && FifoRun(Next(s, steps[0]), steps[1..], b))
  }

  /** The values that join the line of `b` by a step, enqueued or refused. */
  ghost function In(s: State, step: Step, b: string): seq<string> {
    match step
    case Enqueue(keys, value) => if CanEnqueue(s, keys) && KeysFor(keys, b) != [] then [value] else []
    case Nack(item, stamp) => if CanRefuse(s, item, stamp) && item.key.backend == b then [item.value] else []
    case _ => []
  }

  ghost predicate Takes(s: State, step: Step, b: string) {
    step.TryDelete? && CanTake(s, step.c, step.stamp) && s.consumers[step.c].backend == b
  }

  /** The values a step hands to a consumer of `b`. */
  ghost function Out(s: State, step: Step, b: string): seq<string> {
    if Takes(s, step, b) then [s.consumers[step.c].phase.value] else []
  }

  ghost function AllIn(s: State, steps: seq<Step>, b: string): seq<string>
    decreases |steps|
  {
    if steps == [] then [] else In(s, steps[0], b) + AllIn(Next(s, steps[0]), steps[1..], b)
  }

  ghost function AllOut(s: State, steps: seq<Step>, b: string): seq<string>
    decreases |steps|
  {
    if steps == [] then [] else Out(s, steps[0], b) + AllOut(Next(s, steps[0]), steps[1..], b)
  }

  // ---- The line of waiting keys ----

  predicate InLine(k: Key, b: string) { k.lane == Work && k.backend == b }

  ghost predicate Ascending(line: seq<Key>) {
    && (forall i :: 0 <= i < |line| ==> line[i].stamp < UINT64)
    && (forall i, j :: 0 <= i < j < |line| ==> line[i].stamp < line[j].stamp)
  }

  /** A key that a consumer of `b` has chosen is the head of the line, if it is still there. */
  ghost predicate AfterHead(s: State, b: string, line: seq<Key>, x: Consumer)
    requires forall k :: k in line ==> k in s.kvs
  {
    x.phase.Chosen? ==>
      && x.phase.key.backend == x.backend && x.phase.key.lane == Work && x.phase.key in s.written
      && (x.backend == b && x.phase.key in s.kvs ==> line != [] && x.phase.key == line[0] && x.phase.value == s.kvs[line[0]])
  }

  ghost predicate AllAfterHead(s: State, b: string, line: seq<Key>)
    requires forall k :: k in line ==> k in s.kvs
  {
    forall d :: d in s.consumers ==> AfterHead(s, b, line, s.consumers[d])
  }

  /** `line` is the work lane of `b`, oldest first, and everybody is after its head. */
  ghost predicate Lined(s: State, b: string, line: seq<Key>) {
    && (forall k :: k in line <==> k in s.kvs && InLine(k, b))
    && (forall k :: k in s.kvs ==> k in s.written)
    && Ascending(line)
    && AllAfterHead(s, b, line)
    && (forall i :: i in s.held ==> i.key.lane == InFlight)
  }

  /** The values waiting in the line, in order. */
  function Values(kvs: map<Key, string>, line: seq<Key>): (r: seq<string>)
    ensures |r| == |line|
    ensures forall i {:trigger r[i]} :: 0 <= i < |line| && line[i] in kvs ==> r[i] == kvs[line[i]]
  {
    if line == [] then []
    else
      var last := line[|line| - 1];
      Values(kvs, line[..|line| - 1]) + [if last in kvs then kvs[last] else ""]
  }

  lemma FirstIsHead(s: State, b: string, line: seq<Key>, k: Key)
    requires Lined(s, b, line) && IsFirst(s.kvs, b, k)
    ensures line != [] && k == line[0]
  {
    assert k in line;
    assert InLine(line[0], b) && line[0] in line;
    HeadIsFirst(s.kvs, b, line, k);
  }

  lemma HeadIsFirst(kvs: map<Key, string>, b: string, line: seq<Key>, k: Key)
    requires Ascending(line) && k in line && IsFirst(kvs, b, k) && line[0] in kvs && InLine(line[0], b)
    ensures k == line[0]
  {
    hide Less, TimeStamp;
    var i :| 0 <= i < |line| && line[i] == k;
    if i > 0 {
      TimeStampOrder(k.stamp, line[0].stamp);
    }
  }

  ghost predicate SameWork(s: State, s': State, b: string) {
    && (forall k :: InLine(k, b) ==> (k in s'.kvs <==> k in s.kvs) && (k in s.kvs ==> s'.kvs[k] == s.kvs[k]))
    && (forall k :: k in s.written ==> k in s'.written)
  }

  /** A consumer stays where it is while the line does not change. */
  lemma AfterHeadFrame(s: State, s': State, b: string, line: seq<Key>, x: Consumer)
    requires (forall k :: k in line ==> k in s.kvs && InLine(k, b)) && SameWork(s, s', b) && AfterHead(s, b, line, x)
    ensures AfterHead(s', b, line, x)
  {
  }

  /** Only the line, the consumers and the shape of the held items matter. */
  lemma LinedFrame(s: State, s': State, b: string, line: seq<Key>)
    requires Lined(s, b, line) && SameWork(s, s', b)
    requires forall k :: k in s'.kvs ==> k in s'.written
    requires forall d :: d in s'.consumers ==>
      || s'.consumers[d].phase.Idle? || (d in s.consumers && s'.consumers[d] == s.consumers[d])
      || AfterHead(s, b, line, s'.consumers[d])
    requires forall i :: i in s'.held ==> i.key.lane == InFlight
    ensures Lined(s', b, line) && Values(s'.kvs, line) == Values(s.kvs, line)
  {
    hide Ascending;
    assert forall k :: k in line ==> InLine(k, b);
    forall d | d in s'.consumers ensures AfterHead(s', b, line, s'.consumers[d]) {
      if !s'.consumers[d].phase.Idle? {
        assert AfterHead(s, b, line, s'.consumers[d]);
        AfterHeadFrame(s, s', b, line, s'.consumers[d]);
      }
    }
  }

  ghost predicate Rejoins(s: State, step: Step, b: string) {
    step.Nack? && CanRefuse(s, step.item, step.stamp) && step.item.key.backend == b
  }

  /** Steps that leave the line alone. */
  lemma SameLine(s: State, step: Step, b: string, line: seq<Key>)
    requires Lined(s, b, line) && FifoStep(s, step, b)
    requires !(step.Enqueue? && CanEnqueue(s, step.keys)) && !Takes(s, step, b) && !Rejoins(s, step, b)
    ensures Lined(Next(s, step), b, line) && Values(Next(s, step).kvs, line) == Values(s.kvs, line)
  {
    hide IsFirst, Ascending, Lined, Values;
    match step
    case Pick(d, key) => PickSameLine(s, d, key, b, line);
    case Notice(d, key) => NoticeSameLine(s, d, key, b, line);
    case TryDelete(d, stamp) => MissSameLine(s, d, stamp, b, line);
    case Nack(item, stamp) => RefusalSameLine(s, item, stamp, b, line);
    case _ => OtherSameLine(s, step, b, line);
  }

  lemma PickSameLine(s: State, d: nat, key: Key, b: string, line: seq<Key>)
    requires Lined(s, b, line)
    ensures var s' := Next(s, Pick(d, key)); Lined(s', b, line) && Values(s'.kvs, line) == Values(s.kvs, line)
  {
    hide IsFirst, Ascending, Values;
    var s' := Next(s, Pick(d, key));
    if s' != s {
      FirstIsInLane(s.kvs, s.consumers[d].backend, key);
      if s.consumers[d].backend == b { FirstIsHead(s, b, line, key); }
      assert AfterHead(s, b, line, s'.consumers[d]);
      LinedFrame(s, s', b, line);
    }
  }

  lemma NoticeSameLine(s: State, d: nat, key: Key, b: string, line: seq<Key>)
    requires Lined(s, b, line) && FifoStep(s, Notice(d, key), b)
    ensures var s' := Next(s, Notice(d, key)); Lined(s', b, line) && Values(s'.kvs, line) == Values(s.kvs, line)
  {
    hide Ascending, Values;
    var s' := Next(s, Notice(d, key));
    if s' != s {
      assert AfterHead(s, b, line, s'.consumers[d]);
      LinedFrame(s, s', b, line);
    }
  }

  lemma MissSameLine(s: State, d: nat, stamp: nat, b: string, line: seq<Key>)
    requires Lined(s, b, line) && !Takes(s, TryDelete(d, stamp), b)
    ensures var s' := Next(s, TryDelete(d, stamp)); Lined(s', b, line) && Values(s'.kvs, line) == Values(s.kvs, line)
  {
    hide Ascending, Values;
    if d in s.consumers && s.consumers[d].phase.Chosen? {
      assert AfterHead(s, b, line, s.consumers[d]);
      LinedFrame(s, Next(s, TryDelete(d, stamp)), b, line);
    }
  }

  lemma RefusalSameLine(s: State, item: Item, stamp: nat, b: string, line: seq<Key>)
    requires Lined(s, b, line) && !Rejoins(s, Nack(item, stamp), b)
    ensures var s' := Next(s, Nack(item, stamp)); Lined(s', b, line) && Values(s'.kvs, line) == Values(s.kvs, line)
  {
    hide Ascending, Values, AllAfterHead;
    LinedFrame(s, Next(s, Nack(item, stamp)), b, line);
  }

  lemma OtherSameLine(s: State, step: Step, b: string, line: seq<Key>)
    requires Lined(s, b, line)
    requires step.Join? || step.Ack? || (step.Enqueue? && !CanEnqueue(s, step.keys))
    ensures var s' := Next(s, step); Lined(s', b, line) && Values(s'.kvs, line) == Values(s.kvs, line)
  {
    hide Ascending, Values, AllAfterHead;
    LinedFrame(s, Next(s, step), b, line);
  }

  // ---- The line grows ----

  /** New keys at the end of the line, later than all before, change nothing for the consumers. */
  lemma StillAfterHead(s: State, s': State, b: string, line: seq<Key>, news: seq<Key>)
    requires Lined(s, b, line) && s'.consumers == s.consumers
    requires forall k :: k in line + news ==> k in s'.kvs
    requires forall k :: k in line ==> s'.kvs[k] == s.kvs[k]
    requires forall k :: k in news ==> Later(s, b, k.stamp)
    requires forall k :: k in s'.kvs && InLine(k, b) ==> k in s.kvs || k in news
    requires forall k :: k in s.written ==> k in s'.written
    ensures AllAfterHead(s', b, line + news)
  {
    hide Ascending;
    forall d | d in s'.consumers ensures AfterHead(s', b, line + news, s'.consumers[d]) {
      assert AfterHead(s, b, line, s.consumers[d]);
      if line != [] { assert line[0] in line && (line + news)[0] == line[0]; }
    }
  }

  lemma LongerLine(s: State, keys: seq<Key>, value: string, b: string, line: seq<Key>) returns (line': seq<Key>)
    requires Lined(s, b, line) && FifoStep(s, Enqueue(keys, value), b) && CanEnqueue(s, keys)
    ensures Lined(Next(s, Enqueue(keys, value)), b, line')
    ensures Values(Next(s, Enqueue(keys, value)).kvs, line') == Values(s.kvs, line) + In(s, Enqueue(keys, value), b)
  {
    line' := line + KeysFor(keys, b);
    EnqueueLined(s, keys, value, b, line);
    PutAllLookup(s.kvs, keys, value);
    hide PutAll, Values, Ascending, AllAfterHead;
    EnqueueValues(s.kvs, Next(s, Enqueue(keys, value)).kvs, line, KeysFor(keys, b), value);
  }

  lemma EnqueueLined(s: State, keys: seq<Key>, value: string, b: string, line: seq<Key>)
    requires Lined(s, b, line) && FifoStep(s, Enqueue(keys, value), b) && CanEnqueue(s, keys)
    ensures Lined(Next(s, Enqueue(keys, value)), b, line + KeysFor(keys, b))
  {
    PutAllLookup(s.kvs, keys, value);
    PutAllLookup(s.written, keys, value);
    forall k | k in line ensures k in s.written && InLine(k, b) { }
    hide PutAll, Ascending, AllAfterHead;
    LongerAscends(line, KeysFor(keys, b));
    StillAfterHead(s, Next(s, Enqueue(keys, value)), b, line, KeysFor(keys, b));
  }

  /** A refused item goes to the end of the line. */
  lemma RejoinedLine(s: State, item: Item, stamp: nat, b: string, line: seq<Key>)
    requires Lined(s, b, line) && FifoStep(s, Nack(item, stamp), b) && Rejoins(s, Nack(item, stamp), b)
    ensures var s', k := Next(s, Nack(item, stamp)), Key(b, Work, stamp);
      Lined(s', b, line + [k]) && Values(s'.kvs, line + [k]) == Values(s.kvs, line) + [item.value]
  {
    var s', k := Next(s, Nack(item, stamp)), Key(b, Work, stamp);
    RejoinLined(s, item, stamp, b, line);
    assert forall j :: j in line ==> j in s.kvs && InLine(j, b);
    hide Values, Ascending, Lined;
    EnqueueValues(s.kvs, s'.kvs, line, [k], item.value);
  }

  lemma RejoinLined(s: State, item: Item, stamp: nat, b: string, line: seq<Key>)
    requires Lined(s, b, line) && FifoStep(s, Nack(item, stamp), b) && Rejoins(s, Nack(item, stamp), b)
    ensures Lined(Next(s, Nack(item, stamp)), b, line + [Key(b, Work, stamp)])
  {
    var s', k := Next(s, Nack(item, stamp)), Key(b, Work, stamp);
    forall j | j in line ensures j in s.written && InLine(j, b) { }
    hide Ascending, AllAfterHead;
    LongerAscends(line, [k]);
    assert s'.kvs == Swap(s.kvs, item.key, item.value, k) && item.key.lane == InFlight;
    forall j ensures j in line + [k] <==> j in s'.kvs && InLine(j, b) {
      assert j in line + [k] <==> j in line || j == k;
    }
    StillAfterHead(s, s', b, line, [k]);
  }

  lemma EnqueueValues(kvs: map<Key, string>, kvs': map<Key, string>, line: seq<Key>, news: seq<Key>, value: string)
    requires forall k :: k in line ==> k in kvs && k in kvs' && kvs'[k] == kvs[k]
    requires |news| <= 1 && forall k :: k in news ==> k in kvs' && kvs'[k] == value
    ensures Values(kvs', line + news) == Values(kvs, line) + (if news == [] then [] else [value])
  {
    hide Values;
    var l, r := Values(kvs', line + news), Values(kvs, line) + (if news == [] then [] else [value]);
    forall i | 0 <= i < |l| ensures l[i] == r[i] {
      var k := (line + news)[i];
      assert if i < |line| then k in line else k in news;
    }
  }

  lemma TailValues(kvs: map<Key, string>, kvs': map<Key, string>, line: seq<Key>)
    requires line != [] && line[0] in kvs
    requires forall k :: k in line[1..] ==> k in kvs && k in kvs' && kvs'[k] == kvs[k]
    ensures Values(kvs, line) == [kvs[line[0]]] + Values(kvs', line[1..])
  {
    hide Values;
    var l, r := Values(kvs, line), [kvs[line[0]]] + Values(kvs', line[1..]);
    forall i | 0 <= i < |l| ensures l[i] == r[i] {
      if i > 0 { assert line[i] == line[1..][i - 1] && line[i] in line[1..]; }
    }
  }

  lemma LongerAscends(line: seq<Key>, news: seq<Key>)
    requires Ascending(line) && |news| <= 1
    requires forall k :: k in news ==> k.stamp < UINT64
    requires forall k, j :: k in news && j in line ==> j.stamp < k.stamp
    ensures Ascending(line + news)
  {
    if news != [] {
      forall i | 0 <= i < |line| ensures line[i].stamp < news[0].stamp {
        assert line[i] in line && news[0] in news;
      }
    }
  }

  // ---- The line shrinks ----

  /** Whoever takes something takes the head. */
  lemma TakesHead(s: State, step: Step, b: string, line: seq<Key>)
    requires Lined(s, b, line) && Takes(s, step, b)
    ensures line != [] && s.consumers[step.c].phase.key == line[0] && s.consumers[step.c].phase.value == s.kvs[line[0]]
    ensures Next(s, step).kvs == Swap(s.kvs, line[0], s.kvs[line[0]], Key(b, InFlight, step.stamp))
  {
    hide Ascending;
    assert AfterHead(s, b, line, s.consumers[step.c]);
  }

  lemma ShorterLine(s: State, step: Step, b: string, line: seq<Key>)
    requires Lined(s, b, line) && Takes(s, step, b)
    ensures line != [] && Lined(Next(s, step), b, line[1..])
    ensures Values(s.kvs, line) == Out(s, step, b) + Values(Next(s, step).kvs, line[1..])
  {
    TakesHead(s, step, b, line);
    TakeLined(s, step, b, line);
    var kvs' := Next(s, step).kvs;
    forall k | k in line[1..] ensures k in s.kvs && k in kvs' && kvs'[k] == s.kvs[k] {
      assert k in line && InLine(k, b);
      HeadIsGone(line, k);
    }
    assert line[0] in line;
    hide Values, Ascending, Lined;
    TailValues(s.kvs, kvs', line);
  }

  lemma HeadIsGone(line: seq<Key>, k: Key)
    requires Ascending(line) && line != [] && k in line[1..]
    ensures k != line[0]
  {
    var i :| 0 <= i < |line[1..]| && line[1..][i] == k;
    assert line[i + 1] == k;
  }

  lemma TakeLined(s: State, step: Step, b: string, line: seq<Key>)
    requires Lined(s, b, line) && Takes(s, step, b)
    ensures line != [] && Lined(Next(s, step), b, line[1..])
  {
    TakesHead(s, step, b, line);
    var s' := Next(s, step);
    forall k ensures k in line[1..] <==> k in s'.kvs && InLine(k, b) {
      if k in line[1..] {
        assert k in line;
        HeadIsGone(line, k);
      }
      if k in line && k != line[0] { assert k in line[1..]; }
    }
    assert Ascending(line[1..]);
    hide Ascending;
    forall d | d in s'.consumers ensures AfterHead(s', b, line[1..], s'.consumers[d]) {
      assert AfterHead(s, b, line, s.consumers[d]);
    }
  }

  lemma PrefixGrows(o: seq<string>, a: seq<string>, b: seq<string>)
    requires a <= b
    ensures o + a <= o + b
  {
  }

  lemma Regroup(a: seq<string>, b: seq<string>, c: seq<string>)
    ensures (a + b) + c == a + (b + c)
  {
  }

  /** The values dequeued are the oldest of those waiting or joining since. */
  lemma {:induction false} TakenFromFront(s: State, steps: seq<Step>, b: string, line: seq<Key>)
    requires Lined(s, b, line) && FifoRun(s, steps, b)
    ensures AllOut(s, steps, b) <= Values(s.kvs, line) + AllIn(s, steps, b)
    decreases |steps|
  {
    hide Lined, FifoStep, Next, Values, CanEnqueue, Takes, Rejoins, Out;
    if steps != [] {
      var step, s', rest := steps[0], Next(s, steps[0]), steps[1..];
      var line' := LineAfter(s, step, b, line);
      TakenFromFront(s', rest, b, line');
      Regroup(Values(s.kvs, line), In(s, step, b), AllIn(s', rest, b));
      Regroup(Out(s, step, b), Values(s'.kvs, line'), AllIn(s', rest, b));
      PrefixGrows(Out(s, step, b), AllOut(s', rest, b), Values(s'.kvs, line') + AllIn(s', rest, b));
    }
  }

  /** One step: what is taken comes off the front of what waits and what joins. */
  lemma LineAfter(s: State, step: Step, b: string, line: seq<Key>) returns (line': seq<Key>)
    requires Lined(s, b, line) && FifoStep(s, step, b)
    ensures Lined(Next(s, step), b, line')
    ensures Values(s.kvs, line) + In(s, step, b) == Out(s, step, b) + Values(Next(s, step).kvs, line')
  {
    hide Lined, FifoStep, Next, Values, CanEnqueue, CanTake, CanRefuse, Ascending;
    line' := line;
    if step.Enqueue? && CanEnqueue(s, step.keys) {
      line' := LongerLine(s, step.keys, step.value, b, line);
    } else if Takes(s, step, b) {
      ShorterLine(s, step, b, line);
      line' := line[1..];
    } else if Rejoins(s, step, b) {
      RejoinedLine(s, step.item, step.stamp, b, line);
      line' := line + [Key(b, Work, step.stamp)];
    } else {
      SameLine(s, step, b, line);
    }
  }

  /** With a clock that moves on between writes to a backend's work lane: the backend's consumers,
      however many race for it, receive among them exactly the values that joined the line,
      enqueued for the backend or refused, in the order in which they joined, as far as they got. */
  lemma FirstInFirstOut(s: State, steps: seq<Step>, b: string)
    requires Init(s) && FifoRun(s, steps, b)
    ensures AllOut(s, steps, b) <= AllIn(s, steps, b)
  {
    TakenFromFront(s, steps, b, []);
  }
}
