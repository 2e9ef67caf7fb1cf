/** The shared sequence of identifiers: callers read a counter, work out the identifiers after
    it, and write the last of them back if the counter still holds what they read; the loser of
    a race starts again. The counter is 64 bits wide and wraps. */
module Sequence {
  import opened Etcd

  const M: nat := 0x1_0000_0000_0000_0000

  // ---- The stored form ----

  /** The low `k` bytes of `n`, most significant first, and back. */
  function Encode(n: nat, k: nat): (r: seq<nat>)
    ensures |r| == k && forall i :: 0 <= i < k ==> r[i] < 256
    decreases k
  {
    if k == 0 then [] else Encode(n / 256, k - 1) + [n % 256]
  }

  function Decode(bytes: seq<nat>): nat
    decreases |bytes|
  {
    if bytes == [] then 0 else Decode(bytes[..|bytes| - 1]) * 256 + bytes[|bytes| - 1]
  }

  function Pow256(k: nat): nat { if k == 0 then 1 else 256 * Pow256(k - 1) }

  lemma {:induction false} DecodeEncode(n: nat, k: nat)
    requires n < Pow256(k)
    ensures Decode(Encode(n, k)) == n
    decreases k
  {
    if k > 0 {
      DecodeEncode(n / 256, k - 1);
      assert Encode(n, k)[..k - 1] == Encode(n / 256, k - 1);
    }
  }

  predicate BytesLess(a: seq<nat>, b: seq<nat>)
    decreases |a|
  {
    if b == [] then false
    else if a == [] then true
    else if a[0] != b[0] then a[0] < b[0]
    else BytesLess(a[1..], b[1..])
  }

  lemma {:induction false} BytesLessAppend(a: seq<nat>, b: seq<nat>, x: nat, y: nat)
    requires |a| == |b| && (BytesLess(a, b) || (a == b && x < y))
    ensures BytesLess(a + [x], b + [y])
    decreases |a|
  {
    if a != [] {
      assert (a + [x])[1..] == a[1..] + [x] && (b + [y])[1..] == b[1..] + [y];
      if a[0] == b[0] { BytesLessAppend(a[1..], b[1..], x, y); }
    }
  }

  /** Stored identifiers sort as the numbers they stand for. */
  lemma {:induction false} EncodeAscends(n: nat, m: nat, k: nat)
    requires n < m < Pow256(k)
    ensures BytesLess(Encode(n, k), Encode(m, k))
    decreases k
  {
    if n / 256 < m / 256 { EncodeAscends(n / 256, m / 256, k - 1); }
    BytesLessAppend(Encode(n / 256, k - 1), Encode(m / 256, k - 1), n % 256, m % 256);
  }

  lemma Pow256Is64Bits()
    ensures Pow256(8) == M
  {
    assert Pow256(1) == 256;
    assert Pow256(2) == 256 * Pow256(1);
    assert Pow256(4) == 256 * (256 * Pow256(2));
    assert Pow256(6) == 256 * (256 * Pow256(4));
    assert Pow256(8) == 256 * (256 * Pow256(6));
  }

  /** For all 64-bit counters: eight bytes, which decode to the counter, and sort as counters do. */
  lemma StoredForm(n: nat, m: nat)
    requires n < M && m < M
    ensures |Encode(n, 8)| == 8 && Decode(Encode(n, 8)) == n
    ensures Encode(n, 8) == Encode(m, 8) <==> n == m
    ensures BytesLess(Encode(n, 8), Encode(m, 8)) <==> n < m
  {
    hide Encode, Decode, BytesLess, Pow256;
    Pow256Is64Bits();
    DecodeEncode(n, 8);
    DecodeEncode(m, 8);
    BytesLessIrreflexive(Encode(n, 8));
    if n < m {
      EncodeAscends(n, m, 8);
    } else if m < n {
      EncodeAscends(m, n, 8);
      BytesLessAsymmetric(Encode(m, 8), Encode(n, 8));
    }
  }

  lemma {:induction false} BytesLessIrreflexive(a: seq<nat>)
    ensures !BytesLess(a, a)
    decreases |a|
  {
    if a != [] { BytesLessIrreflexive(a[1..]); }
  }

  lemma {:induction false} BytesLessAsymmetric(a: seq<nat>, b: seq<nat>)
    requires BytesLess(a, b)
    ensures !BytesLess(b, a)
    decreases |a|
  {
    if a != [] && a[0] == b[0] { BytesLessAsymmetric(a[1..], b[1..]); }
  }

  // ---- State and steps ----

  /** The identifiers handed out after the counter shows `n`. */
  function Ids(n: nat, values: nat): (r: seq<nat>)
    ensures |r| == values && forall i {:trigger r[i]} :: 0 <= i < values ==> r[i] == (n + 1 + i) % M
    decreases values
  {
    if values == 0 then [] else Ids(n, values - 1) + [(n + values) % M]
  }

  datatype Phase =
    | Idle
    | Fetching(values: nat)
    | Read(values: nat, n: nat, at: nat)

  /** A caller and how many of its writes were refused. `at` in a phase is the number of
      grants there were when the counter was read. */
  datatype Caller = Caller(phase: Phase, refused: nat)

  datatype Grant = Grant(caller: nat, ids: seq<nat>)

  /** The counter as stored, the callers, and everything granted, in order. */
  datatype State = State(counter: Option<nat>, callers: map<nat, Caller>, grants: seq<Grant>)

  datatype Step =
    | Call(c: nat, values: nat)
    | Fetch(c: nat)
    | Commit(c: nat)

  function Next(s: State, step: Step): State {
    match step
    case Call(c, values) =>
      var x := if c in s.callers then s.callers[c] else Caller(Idle, 0);
      if !x.phase.Idle? || values == 0 then s
      else s.(callers := s.callers[c := x.(phase := Fetching(values))])
    case Fetch(c) =>
      if c !in s.callers || !s.callers[c].phase.Fetching? then s
      else
        var n := if s.counter.Some? then s.counter.value else 0;
        s.(counter := Some(n), callers := s.callers[c := s.callers[c].(phase := Read(s.callers[c].phase.values, n, |s.grants|))])
    case Commit(c) =>
      if c !in s.callers || !s.callers[c].phase.Read? then s
      else
        var x := s.callers[c];
        var values, n := x.phase.values, x.phase.n;
        if s.counter == Some(n) then
          State(Some((n + values) % M), s.callers[c := x.(phase := Idle)], s.grants + [Grant(c, Ids(n, values))])
        else
          s.(callers := s.callers[c := Caller(Fetching(values), x.refused + 1)])
  }

  function Exec(s: State, steps: seq<Step>): State
    decreases |steps|
  {
    if steps == [] then s else Exec(Next(s, steps[0]), steps[1..])
  }

  ghost predicate Init(s: State) { s.counter == None && s.callers == map[] && s.grants == [] }

  // ---- What has been handed out ----

  function AllIds(grants: seq<Grant>): seq<nat>
    decreases |grants|
  {
    if grants == [] then [] else AllIds(grants[..|grants| - 1]) + grants[|grants| - 1].ids
  }

  function Total(grants: seq<Grant>): nat { |AllIds(grants)| }

  /** Grants to callers other than `c`. */
  function Others(grants: seq<Grant>, c: nat): nat
    decreases |grants|
  {
    if grants == [] then 0
    else Others(grants[..|grants| - 1], c) + (if grants[|grants| - 1].caller == c then 0 else 1)
  }

  lemma AllIdsSnoc(grants: seq<Grant>, g: Grant)
    ensures AllIds(grants + [g]) == AllIds(grants) + g.ids
    ensures forall c :: Others(grants + [g], c) == Others(grants, c) + (if g.caller == c then 0 else 1)
  {
    assert (grants + [g])[..|grants|] == grants;
  }

  lemma IdsContinue(total: nat, values: nat)
    ensures Ids(0, total) + Ids(total % M, values) == Ids(0, total + values)
  {
    hide Ids;
    forall i: nat | i < total + values ensures (Ids(0, total) + Ids(total % M, values))[i] == Ids(0, total + values)[i] {
      IdsContinueAt(total, values, i);
    }
  }

  lemma IdsContinueAt(total: nat, values: nat, i: nat)
    requires i < total + values
    ensures (Ids(0, total) + Ids(total % M, values))[i] == Ids(0, total + values)[i]
  {
    hide Ids;
    var r := Ids(0, total + values);
    assert r[i] == (0 + 1 + i) % M;
    if i < total {
      assert Ids(0, total)[i] == (0 + 1 + i) % M;
    } else {
      assert Ids(total % M, values)[i - total] == (total % M + 1 + (i - total)) % M;
      ModSum(total, 1 + (i - total));
    }
  }

  lemma ModSum(a: nat, b: nat)
    ensures (a % M + b) % M == (a + b) % M
  {
  }

  // ---- Invariants ----

  /** The identifiers granted so far, in order, are 1, 2, 3 and so on (modulo 2^64), and the
      counter shows how many there are. */
  ghost predicate Counted(s: State) {
    && AllIds(s.grants) == Ids(0, Total(s.grants))
    && (s.counter.None? ==> s.grants == [])
    && (s.counter.Some? ==> s.counter.value == Total(s.grants) % M)
  }

  lemma NextCounted(s: State, step: Step)
    requires Counted(s)
    ensures Counted(Next(s, step))
  {
    if step.Commit? && step.c in s.callers && s.callers[step.c].phase.Read? && s.counter == Some(s.callers[step.c].phase.n) {
      CommitCounted(s, step.c);
    }
  }

  lemma CommitCounted(s: State, c: nat)
    requires Counted(s) && c in s.callers && s.callers[c].phase.Read? && s.counter == Some(s.callers[c].phase.n)
    ensures Counted(Next(s, Commit(c)))
  {
    hide Ids, AllIds;
    var x, total := s.callers[c], Total(s.grants);
    AllIdsSnoc(s.grants, Grant(c, Ids(x.phase.n, x.phase.values)));
    IdsContinue(total, x.phase.values);
    ModSum(total, x.phase.values);
  }

  lemma {:induction false} ExecCounted(s: State, steps: seq<Step>)
    requires Counted(s)
    ensures Counted(Exec(s, steps))
    decreases |steps|
  {
    hide Counted, Next;
    if steps != [] {
      NextCounted(s, steps[0]);
      ExecCounted(Next(s, steps[0]), steps[1..]);
    }
  }

  ghost predicate AllDistinct(ids: seq<nat>) {
    forall i, j :: 0 <= i < j < |ids| ==> ids[i] != ids[j]
  }

  lemma DistinctExactly(total: nat)
    ensures AllDistinct(Ids(0, total)) <==> total <= M
  {
    hide Ids;
    var ids := Ids(0, total);
    if total <= M {
      forall i, j | 0 <= i < j < total ensures ids[i] != ids[j] { }
    } else {
      assert ids[0] == ids[M];
    }
  }

  /** For any number of callers in any interleaving: the identifiers of one call are consecutive,
      all of them together are the first numbers in order of commit, the counter shows how many
      there have been, and they are pairwise different if and only if no more than 2^64 were
      asked for. */
  lemma AllocationExact(s: State, steps: seq<Step>)
    requires Init(s)
    ensures var t := Exec(s, steps); var ids := AllIds(t.grants);
      && (forall i :: 0 <= i < |ids| ==> ids[i] == (i + 1) % M)
      && (t.counter.Some? ==> t.counter.value == |ids| % M)
      && (AllDistinct(ids) <==> |ids| <= M)
  {
    ExecCounted(s, steps);
    DistinctExactly(Total(Exec(s, steps).grants));
    hide Ids, Exec;
  }

  /** Below the wrap: the identifiers are exactly 1 to the stored counter. */
  lemma AllocationBelowWrap(s: State, steps: seq<Step>)
    requires Init(s) && Exec(s, steps).counter.Some? && Total(Exec(s, steps).grants) < M
    ensures var t := Exec(s, steps);
      |AllIds(t.grants)| == t.counter.value && forall i :: 0 <= i < t.counter.value ==> AllIds(t.grants)[i] == i + 1
  {
    ExecCounted(s, steps);
    hide Ids, Exec;
  }

  // ---- Retries ----

  /** Since a caller read the counter, only others have been granted anything; and as long as
      nobody has, the counter is as it was read. */
  ghost predicate CallerCharged(s: State, c: nat)
    requires c in s.callers
  {
    var x := s.callers[c];
    match x.phase
    case Read(_, n, at) =>
      && at <= |s.grants|
      && s.counter.Some? && (at == |s.grants| ==> s.counter.value == n)
      && x.refused <= Others(s.grants[..at], c)
      && Others(s.grants, c) == Others(s.grants[..at], c) + (|s.grants| - at)
    case _ => x.refused <= Others(s.grants, c)
  }

  ghost predicate Charged(s: State) { forall c :: c in s.callers ==> CallerCharged(s, c) }

  lemma NextCharged(s: State, step: Step)
    requires Charged(s)
    ensures Charged(Next(s, step))
  {
    var s' := Next(s, step);
    forall c | c in s'.callers ensures CallerCharged(s', c) {
      if c in s.callers { assert CallerCharged(s, c); }
      if s'.grants != s.grants { GrantCharged(s, step, c); } else { assert s.grants[..|s.grants|] == s.grants; }
    }
  }

  lemma GrantCharged(s: State, step: Step, c: nat)
    requires Charged(s) && Next(s, step).grants != s.grants && c in Next(s, step).callers
    ensures CallerCharged(Next(s, step), c)
  {
    hide Ids;
    var s' := Next(s, step);
    assert CallerCharged(s, c);
    AllIdsSnoc(s.grants, s'.grants[|s.grants|]);
    assert s.grants[..|s.grants|] == s.grants;
    if s.callers[c].phase.Read? && c != step.c {
      assert s'.grants[..s.callers[c].phase.at] == s.grants[..s.callers[c].phase.at];
    }
  }

  lemma {:induction false} ExecCharged(s: State, steps: seq<Step>)
    requires Charged(s)
    ensures Charged(Exec(s, steps))
    decreases |steps|
  {
    hide Charged, Next;
    if steps != [] {
      NextCharged(s, steps[0]);
      ExecCharged(Next(s, steps[0]), steps[1..]);
    }
  }

  lemma {:induction false} OthersGrow(grants: seq<Grant>, k: nat, c: nat)
    requires k <= |grants|
    ensures Others(grants[..k], c) <= Others(grants, c)
    decreases |grants|
  {
    if k < |grants| {
      OthersGrow(grants[..|grants| - 1], k, c);
      assert grants[..|grants| - 1][..k] == grants[..k];
    } else {
      assert grants[..k] == grants;
    }
  }

  /** In every run a caller is sent back no more often than others were served. */
  lemma RetriesArePaidFor(s: State, steps: seq<Step>, c: nat)
    requires Init(s) && c in Exec(s, steps).callers
    ensures Exec(s, steps).callers[c].refused <= Others(Exec(s, steps).grants, c)
  {
    ExecCharged(s, steps);
    var t := Exec(s, steps);
    assert CallerCharged(t, c);
    if t.callers[c].phase.Read? { OthersGrow(t.grants, t.callers[c].phase.at, c); }
  }

  // ---- The code of one caller ----

  datatype Result = Granted(ids: seq<nat>) | Negative

  /** What others add to the counter between a caller's read and its write, over its attempts. */
  function Sum(amounts: seq<nat>): nat
    decreases |amounts|
  {
    if amounts == [] then 0 else amounts[0] + Sum(amounts[1..])
  }

  /** What the counter shows once the first `tries` of the rivals' additions are in. */
  function Reading(start: nat, rivals: seq<nat>, tries: nat): (r: nat)
    requires tries <= |rivals|
    ensures r < M
  {
    (start + Sum(rivals[..tries])) % M
  }

  lemma ReadingFirst(start: nat, rivals: seq<nat>)
    requires start < M
    ensures Reading(start, rivals, 0) == start
  {
  }

  lemma ReadingNext(start: nat, rivals: seq<nat>, rest: nat)
    requires rivals != [] && rest < |rivals|
    ensures Reading((start + rivals[0]) % M, rivals[1..], rest) == Reading(start, rivals, rest + 1)
  {
    assert rivals[..rest + 1] == [rivals[0]] + rivals[1..][..rest];
    ModSum(start + rivals[0], Sum(rivals[1..][..rest]));
  }

  class SequenceKey {
    var value: Option<nat>

    constructor ()
      ensures value == None
    {
      value := None;
    }

    method BuildIds(n: nat, values: nat) returns (result: seq<nat>, last: nat)
      requires n < M
      ensures result == Ids(n, values) && last == (n + values) % M
    {
      hide Ids;
      result, last := [], n;
      for i := 0 to values
        invariant |result| == i && last == (n + i) % M
        invariant forall j :: 0 <= j < i ==> result[j] == (n + 1 + j) % M
      {
        ModSum(n + i, 1);
        last := (last + 1) % M;
        result := result + [last];
      }
    }

    /** `rivals[i]` is what others are granted between this caller's i-th read and write. The
        call returns the identifiers after everything granted by then, and it starts again only
        when some of its rivals moved the counter. */
    method Sequences(values: int, rivals: seq<nat>) returns (r: Result, ghost tries: nat)
      requires value.Some? ==> value.value < M
      modifies this
      ensures values < 0 ==> r == Negative && value == old(value)
      ensures values == 0 ==> r == Granted([]) && value == old(value)
      ensures values > 0 ==>
        && tries <= |rivals|
        && (forall i :: 0 <= i < tries ==> rivals[i] % M != 0)
        && (var start := if old(value).Some? then old(value).value else 0;
            var n := Reading(start, rivals, tries);
            r == Granted(Ids(n, values)) && value == Some((n + values) % M))
      decreases |rivals|
    {
      hide Ids, Sum, Reading;
      tries := 0;
      if values == 0 {
        return Granted([]), 0;
      }
      if values < 0 {
        return Negative, 0;
      }
      if value.None? {
        value := Some(0);
      }
      var n := value.value;
      var result, last := BuildIds(n, values);
      var rival := if rivals == [] then 0 else rivals[0];
      value := Some((n + rival) % M);
      if value == Some(n) {
        ReadingFirst(n, rivals);
        value := Some(last);
        return Granted(result), 0;
      }
      ghost var rest: nat;
      r, rest := Sequences(values, rivals[1..]);
      tries := rest + 1;
      ReadingNext(n, rivals, rest);
    }
  }
}
