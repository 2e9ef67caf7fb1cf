/** The queue's own code, each call undisturbed, against the transactions of Queue. */
module QueueClients {
  import opened Order
  import Etcd
  import opened Queue

  /** The keys in etcd and a clock that never shows the same time twice. */
  class Lanes {
    var kvs: map<Key, string>
    var clock: nat

    constructor ()
      ensures kvs == map[] && clock == 0
    {
      kvs, clock := map[], 0;
    }

    method Tick() returns (now: nat)
      modifies this`clock
      ensures now == old(clock) && clock == now + 1
    {
      now := clock;
      clock := clock + 1;
    }
  }

  /** Different keys of one lane have different names. */
  ghost predicate StampsApart(kvs: map<Key, string>) {
    forall j, k :: j in kvs && k in kvs && j != k && j.lane == k.lane && j.backend == k.backend ==>
      TimeStamp(j.stamp) != TimeStamp(k.stamp)
  }

  /** Keys that a clock at `now` can still run into. */
  ghost function Ahead(kvs: map<Key, string>, now: nat): set<Key> {
    set k | k in kvs && k.stamp >= now
  }

  class QueueClient {
    const lanes: Lanes
    const backend: string

    constructor (lanes: Lanes, backend: string)
      ensures this.lanes == lanes && this.backend == backend
    {
      this.lanes := lanes;
      this.backend := backend;
    }

    /** One work key for each backend, in order, with later and later stamps; an identifier that
        does not parse makes the whole call fail. */
    method EnqueueOps(backendIDs: seq<string>, parses: string -> bool) returns (keys: Etcd.Option<seq<Key>>)
      modifies lanes`clock
      ensures keys.None? <==> exists i :: 0 <= i < |backendIDs| && !parses(backendIDs[i])
      ensures keys.Some? ==> |keys.value| == |backendIDs| && Distinct(keys.value)
      ensures keys.Some? ==> forall i :: 0 <= i < |backendIDs| ==>
        keys.value[i] == Key(backendIDs[i], Work, old(lanes.clock) + i)
    {
      var out: seq<Key> := [];
      for i := 0 to |backendIDs|
        invariant lanes.clock == old(lanes.clock) + i
        invariant |out| == i && forall j :: 0 <= j < i ==> parses(backendIDs[j])
        invariant forall j :: 0 <= j < i ==> out[j] == Key(backendIDs[j], Work, old(lanes.clock) + j)
      {
        var seqNo := lanes.Tick();
        if !parses(backendIDs[i]) {
          return Etcd.None;
        }
        out := out + [Key(backendIDs[i], Work, seqNo)];
      }
      keys := Etcd.Some(out);
    }

    /** The value ends up once in the work lane of every backend named, or nothing changes. The
        stamps are taken once: if one of them is in use, all attempts until the context ends fail. */
    method Enqueue(backendIDs: seq<string>, parses: string -> bool, value: string, attempts: nat) returns (ok: bool)
      modifies lanes
      ensures ok <==>
        && attempts > 0
        && (forall i :: 0 <= i < |backendIDs| ==> parses(backendIDs[i]))
        && (forall i :: 0 <= i < |backendIDs| ==> Key(backendIDs[i], Work, old(lanes.clock) + i) !in old(lanes.kvs))
      ensures !ok ==> lanes.kvs == old(lanes.kvs)
      ensures ok ==> Contents(lanes.kvs) == old(Contents(lanes.kvs)) + AddressedTo(backendIDs, value)
      ensures ok ==> forall i :: 0 <= i < |backendIDs| ==>
        var k := Key(backendIDs[i], Work, old(lanes.clock) + i); k in lanes.kvs && lanes.kvs[k] == value
      ensures ok ==> InLane(lanes.kvs, InFlight) == old(InLane(lanes.kvs, InFlight))
      ensures ok ==>
        Contents(InLane(lanes.kvs, Work)) == old(Contents(InLane(lanes.kvs, Work))) + AddressedTo(backendIDs, value)
      ensures ok ==> forall k :: k in old(lanes.kvs) ==> k in lanes.kvs && lanes.kvs[k] == old(lanes.kvs)[k]
    {
      hide Contents, InLane;
      var ops := EnqueueOps(backendIDs, parses);
      if ops.None? {
        return false;
      }
      var keys := ops.value;
      ok := false;
      var left := attempts;
      while left > 0 && !ok
        invariant 0 <= left <= attempts
        invariant ok <==> left < attempts && AllFree(old(lanes.kvs), keys)
        invariant lanes.kvs == if ok then PutAll(old(lanes.kvs), keys, value) else old(lanes.kvs)
      {
        if AllFree(lanes.kvs, keys) {
          lanes.kvs := PutAll(lanes.kvs, keys, value);
          ok := true;
        }
        left := left - 1;
      }
      StampsFree(old(lanes.kvs), keys, backendIDs, old(lanes.clock));
      if ok {
        PutAllContents(old(lanes.kvs), keys, value);
        PutAllLookup(old(lanes.kvs), keys, value);
        AddressedSame(keys, backendIDs, value);
        OnlyWorkGrows(old(lanes.kvs), keys, value);
        assert forall i :: 0 <= i < |keys| ==> keys[i] in keys;
      }
    }

    /** The first key of the backend's work lane. */
    method FirstKey() returns (first: Etcd.Option<Key>)
      requires StampsApart(lanes.kvs)
      ensures first.None? <==> forall k :: k in lanes.kvs ==> !(k.lane == Work && k.backend == backend)
      ensures first.Some? ==> IsFirst(lanes.kvs, backend, first.value)
    {
      hide TimeStamp, Less;
      first := Etcd.None;
      var rest := lanes.kvs.Keys;
      while rest != {}
        invariant rest <= lanes.kvs.Keys
        invariant first.None? ==> forall k :: k in lanes.kvs && k !in rest ==> !(k.lane == Work && k.backend == backend)
        invariant first.Some? ==> first.value in lanes.kvs && first.value.lane == Work && first.value.backend == backend
        invariant first.Some? ==>
          forall k :: k in lanes.kvs && k !in rest && k.lane == Work && k.backend == backend && k != first.value ==>
          Less(TimeStamp(first.value.stamp), TimeStamp(k.stamp))
        decreases rest
      {
        var k :| k in rest;
        rest := rest - {k};
        if k.lane == Work && k.backend == backend {
          if first.None? {
            first := Etcd.Some(k);
          } else if k != first.value {
            LessTotal(TimeStamp(k.stamp), TimeStamp(first.value.stamp));
            if Less(TimeStamp(k.stamp), TimeStamp(first.value.stamp)) {
              Undercut(lanes.kvs, backend, rest + {k}, first.value, k);
              first := Etcd.Some(k);
            }
          }
        }
      }
    }

    /** Move the key to the in-flight lane if it is still there and the new key is free. */
    method TryDelete(key: Key, value: string) returns (item: Etcd.Option<Key>)
      modifies lanes
      ensures lanes.clock == old(lanes.clock) + 1
      ensures var uKey := Key(backend, InFlight, old(lanes.clock));
        if uKey !in old(lanes.kvs) && key in old(lanes.kvs)
        then item == Etcd.Some(uKey) && lanes.kvs == Swap(old(lanes.kvs), key, value, uKey)
        else item.None? && lanes.kvs == old(lanes.kvs)
    {
      var seqNo := lanes.Tick();
      var uKey := Key(backend, InFlight, seqNo);
      if uKey !in lanes.kvs && key in lanes.kvs {
        lanes.kvs := Swap(lanes.kvs, key, value, uKey);
        return Etcd.Some(uKey);
      }
      item := Etcd.None;
    }

    /** The oldest waiting item, now in flight under a new key; nothing when the lane is empty.
        Running into occupied stamps costs another round, and the clock gets past all of them. */
    method Dequeue() returns (item: Etcd.Option<Key>, ghost from: Etcd.Option<Key>)
      requires forall k :: k in lanes.kvs ==> k.stamp < UINT64
      modifies lanes
      ensures item.None? <==> forall k :: k in old(lanes.kvs) ==> !(k.lane == Work && k.backend == backend)
      ensures item.None? ==> lanes.kvs == old(lanes.kvs)
      ensures item.Some? ==>
        && from.Some? && IsFirst(old(lanes.kvs), backend, from.value)
        && item.value.lane == InFlight && item.value.backend == backend && item.value !in old(lanes.kvs)
        && lanes.kvs == Swap(old(lanes.kvs), from.value, old(lanes.kvs)[from.value], item.value)
        && Contents(lanes.kvs) == old(Contents(lanes.kvs))
        && forall j :: j in old(lanes.kvs) && j.lane == Work && j.backend == backend ==> from.value.stamp <= j.stamp
      decreases Ahead(lanes.kvs, lanes.clock)
    {
      StampsDiffer(lanes.kvs);
      var first := FirstKey();
      if first.None? {
        return Etcd.None, Etcd.None;
      }
      var key := first.value;
      FirstIsOldest(lanes.kvs, backend, key);
      var uKey := Key(backend, InFlight, lanes.clock);
      if uKey !in lanes.kvs { SwapConservesExactly(lanes.kvs, key, lanes.kvs[key], uKey); }
      item := TryDelete(key, lanes.kvs[key]);
      if item.Some? {
        return item, Etcd.Some(key);
      }
      assert uKey in Ahead(old(lanes.kvs), old(lanes.clock));
      item, from := Dequeue();
    }

    /** Back to a lane under the first free stamp from now on; the old key is dropped, and whether
        it was still there is not asked. */
    method SwapLane(current: Key, value: string, lane: Lane) returns (uKey: Key)
      modifies lanes
      ensures uKey.backend == backend && uKey.lane == lane && uKey !in old(lanes.kvs) && uKey.stamp >= old(lanes.clock)
      ensures lanes.kvs == Swap(old(lanes.kvs), current, value, uKey)
      ensures current.backend == backend && current.lane != lane ==>
        (Contents(lanes.kvs) == old(Contents(lanes.kvs)) <==> current in old(lanes.kvs) && old(lanes.kvs)[current] == value)
    {
      var seqNo := lanes.Tick();
      uKey := Key(backend, lane, seqNo);
      while uKey in lanes.kvs
        invariant lanes.kvs == old(lanes.kvs)
        invariant uKey == Key(backend, lane, uKey.stamp) && old(lanes.clock) <= uKey.stamp
        invariant lanes.clock == uKey.stamp + 1
        decreases Ahead(lanes.kvs, uKey.stamp)
      {
        assert uKey in Ahead(lanes.kvs, uKey.stamp);
        seqNo := lanes.Tick();
        uKey := Key(backend, lane, seqNo);
      }
      if current.backend == backend && current.lane != lane { SwapConservesExactly(lanes.kvs, current, value, uKey); }
      lanes.kvs := Swap(lanes.kvs, current, value, uKey);
    }

    method Ack(key: Key)
      modifies lanes`kvs
      ensures lanes.kvs == old(lanes.kvs) - {key}
    {
      lanes.kvs := lanes.kvs - {key};
    }
  }

  /** The addressees of one value sent to each of a list of backends. */
  function AddressedTo(backendIDs: seq<string>, value: string): multiset<(string, string)> {
    if backendIDs == [] then multiset{} else multiset{(backendIDs[0], value)} + AddressedTo(backendIDs[1..], value)
  }

  lemma {:induction false} AddressedSame(keys: seq<Key>, backendIDs: seq<string>, value: string)
    requires |keys| == |backendIDs| && forall i :: 0 <= i < |keys| ==> keys[i].backend == backendIDs[i]
    ensures Addressed(keys, value) == AddressedTo(backendIDs, value)
    decreases |keys|
  {
    if keys != [] { AddressedSame(keys[1..], backendIDs[1..], value); }
  }

  lemma LaneWith(kvs: map<Key, string>, k: Key, value: string)
    requires k.lane == Work
    ensures InLane(kvs[k := value], InFlight) == InLane(kvs, InFlight)
    ensures InLane(kvs[k := value], Work) == InLane(kvs, Work)[k := value]
  {
  }

  lemma {:induction false} LanesAfterPutAll(kvs: map<Key, string>, keys: seq<Key>, value: string)
    requires forall i :: 0 <= i < |keys| ==> keys[i].lane == Work
    ensures InLane(PutAll(kvs, keys, value), InFlight) == InLane(kvs, InFlight)
    ensures InLane(PutAll(kvs, keys, value), Work) == PutAll(InLane(kvs, Work), keys, value)
    decreases |keys|
  {
    hide InLane;
    if keys != [] {
      LaneWith(kvs, keys[0], value);
      LanesAfterPutAll(kvs[keys[0] := value], keys[1..], value);
    }
  }

  lemma OnlyWorkGrows(kvs: map<Key, string>, keys: seq<Key>, value: string)
    requires AllFree(kvs, keys) && Distinct(keys) && forall i :: 0 <= i < |keys| ==> keys[i].lane == Work
    ensures InLane(PutAll(kvs, keys, value), InFlight) == InLane(kvs, InFlight)
    ensures Contents(InLane(PutAll(kvs, keys, value), Work)) == Contents(InLane(kvs, Work)) + Addressed(keys, value)
  {
    hide Contents, PutAll;
    LanesAfterPutAll(kvs, keys, value);
    PutAllContents(InLane(kvs, Work), keys, value);
  }

  lemma StampsFree(kvs: map<Key, string>, keys: seq<Key>, backendIDs: seq<string>, first: nat)
    requires |keys| == |backendIDs| && forall i :: 0 <= i < |keys| ==> keys[i] == Key(backendIDs[i], Work, first + i)
    ensures AllFree(kvs, keys) <==> forall i :: 0 <= i < |backendIDs| ==> Key(backendIDs[i], Work, first + i) !in kvs
  {
    forall i | 0 <= i < |keys| ensures keys[i] in kvs <==> Key(backendIDs[i], Work, first + i) in kvs {
    }
  }

  lemma StampsDiffer(kvs: map<Key, string>)
    requires forall k :: k in kvs ==> k.stamp < UINT64
    ensures StampsApart(kvs)
  {
    hide TimeStamp;
    forall j, k | j in kvs && k in kvs && j != k && j.lane == k.lane && j.backend == k.backend
      ensures TimeStamp(j.stamp) != TimeStamp(k.stamp)
    {
      TimeStampOrder(j.stamp, k.stamp);
    }
  }

  lemma Undercut(kvs: map<Key, string>, backend: string, rest: set<Key>, first: Key, k: Key)
    requires Less(TimeStamp(k.stamp), TimeStamp(first.stamp))
    requires forall j :: j in kvs && j !in rest && j.lane == Work && j.backend == backend && j != first ==>
      Less(TimeStamp(first.stamp), TimeStamp(j.stamp))
    ensures forall j :: j in kvs && j !in rest && j.lane == Work && j.backend == backend ==>
      Less(TimeStamp(k.stamp), TimeStamp(j.stamp))
  {
    hide TimeStamp, Less;
    forall j | j in kvs && j !in rest && j.lane == Work && j.backend == backend
      ensures Less(TimeStamp(k.stamp), TimeStamp(j.stamp))
    {
      if j != first { LessTransitive(TimeStamp(k.stamp), TimeStamp(first.stamp), TimeStamp(j.stamp)); }
    }
  }
}
