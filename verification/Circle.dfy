/** Positions on a circle of `n` places: walks, and the stretches a round-robin ring hands out.
    Everything here is about positions; RingSelection ties it to the items of a ring. */
module Circle {

  // ---- Walking ----

  /** Where a walk of `i` steps from place 0 ends, and how often it came round. */
  function Wrap(i: nat, n: nat): (r: nat)
    requires n > 0
    ensures r < n
    decreases i
  {
    if i < n then i else Wrap(i - n, n)
  }

  function Rounds(i: nat, n: nat): (r: nat)
    requires n > 0
    decreases i
  {
    if i < n then 0 else 1 + Rounds(i - n, n)
  }

  /** The `m` places visited from place `s` on. */
  function Walk(s: nat, m: nat, n: nat): (r: seq<nat>)
    requires n > 0
    ensures |r| == m && forall j {:trigger r[j]} :: 0 <= j < m ==> r[j] == Wrap(s + j, n)
    decreases m
  {
    if m == 0 then [] else Walk(s, m - 1, n) + [Wrap(s + m - 1, n)]
  }

  /** `m` entries, going round `kvs` as often as needed. */
  function Repeated<T>(kvs: seq<T>, m: nat): (r: seq<T>)
    requires kvs != []
    ensures |r| == m && forall j {:trigger r[j]} :: 0 <= j < m ==> r[j] == kvs[Wrap(j, |kvs|)]
    decreases m
  {
    if m == 0 then [] else Repeated(kvs, m - 1) + [kvs[Wrap(m - 1, |kvs|)]]
  }

  /** `k` times `v`, as repeated addition. */
  function Times(k: nat, v: nat): (r: nat) {
    if k == 0 then 0 else Times(k - 1, v) + v
  }

  lemma {:induction false} TimesSum(a: nat, b: nat, v: nat)
    ensures Times(a + b, v) == Times(a, v) + Times(b, v)
  {
    if b > 0 { TimesSum(a, b - 1, v); }
  }

  lemma {:induction false} TimesIsProduct(k: nat, v: nat)
    ensures Times(k, v) == k * v
  {
    if k > 0 {
      TimesIsProduct(k - 1, v);
      assert k * v == (k - 1) * v + v;
    }
  }

  lemma {:induction false} WrapSum(a: nat, b: nat, n: nat)
    requires n > 0
    ensures Wrap(Wrap(a, n) + b, n) == Wrap(a + b, n)
    decreases a
  {
    if a >= n { WrapSum(a - n, b, n); }
  }

  lemma {:induction false} WrapStep(m: nat, n: nat)
    requires n > 0
    ensures if Wrap(m, n) == n - 1 then Rounds(m + 1, n) == Rounds(m, n) + 1 && Wrap(m + 1, n) == 0
            else Rounds(m + 1, n) == Rounds(m, n) && Wrap(m + 1, n) == Wrap(m, n) + 1
    decreases m
  {
    if m >= n { WrapStep(m - n, n); }
  }

  lemma ZeroSteps(n: nat)
    requires n > 0
    ensures Wrap(0, n) == 0 && Rounds(0, n) == 0
  {
  }

  lemma WrapSmall(i: nat, n: nat)
    requires n > 0
    ensures i < n ==> Wrap(i, n) == i
    ensures n <= i < 2 * n ==> Wrap(i, n) == i - n
    ensures i == 2 * n ==> Wrap(i, n) == 0
  {
    if n <= i { assert Wrap(i, n) == Wrap(i - n, n); }
    if i == 2 * n { assert Wrap(n, n) == Wrap(0, n); }
  }

  lemma {:induction false} WrapHalves(i: nat, n: nat)
    requires n > 0
    ensures Wrap(Wrap(i, 2 * n), n) == Wrap(i, n)
    decreases i
  {
    if i >= 2 * n { WrapHalves(i - 2 * n, n); }
  }

  lemma DivModUnique(a: int, n: int, q: int, r: int)
    requires 0 < n && 0 <= r < n && a == q * n + r
    ensures a / n == q && a % n == r
  {
    var d := a / n - q;
    assert d * n == r - a % n;
    assert d > 0 ==> d * n >= n;
    assert d < 0 ==> d * n <= -n;
  }

  /** The circle's arithmetic is division with remainder. */
  lemma {:induction false} WrapIsMod(i: nat, n: nat)
    requires n > 0
    ensures Rounds(i, n) == i / n && Wrap(i, n) == i % n
    decreases i
  {
    if i < n {
      DivModUnique(i, n, 0, i);
    } else {
      WrapIsMod(i - n, n);
      var q, r := (i - n) / n, (i - n) % n;
      assert (q + 1) * n == q * n + n;
      DivModUnique(i, n, q + 1, r);
    }
  }

  lemma WalkAppend(s: nat, a: nat, b: nat, n: nat)
    requires n > 0
    ensures Walk(s, a, n) + Walk(Wrap(s + a, n), b, n) == Walk(s, a + b, n)
  {
    var l, r := Walk(s, a, n) + Walk(Wrap(s + a, n), b, n), Walk(s, a + b, n);
    forall j | 0 <= j < |l| ensures l[j] == r[j] {
      if j >= a { WrapSum(s + a, j - a, n); }
    }
  }

  // ---- Advancing ----

  /** Places found from `s` on when `m` are asked for: never more than the rest of the circle
      and one whole round. */
  function Reach(s: nat, m: nat, n: nat): nat
    requires s < n
  {
    if m < 2 * n - s then m else 2 * n - s
  }

  function Found(s: nat, m: nat, n: nat): (r: seq<nat>)
    requires s < n && m > 0
    ensures r != []
  {
    Walk(s, Reach(s, m, n), n)
  }

  /** What one advance from place `s` hands out, and the place it leaves the ring at. */
  function Window(s: nat, values: nat, n: nat): (r: seq<nat>)
    requires s < n
    ensures |r| == values && forall j :: 0 <= j < values ==> r[j] < n
  {
    Repeated(Found(s, values + 1, n), values)
  }

  function Follow(s: nat, values: nat, n: nat): (r: nat)
    requires s < n
    ensures r < n
  {
    if values < 2 * n - s then Wrap(s + values, n) else s
  }

  /** The place after `m` advances, and everything handed out by them. */
  function PlaceAfter(s: nat, values: nat, m: nat, n: nat): (r: nat)
    requires s < n
    ensures r < n
    decreases m
  {
    if m == 0 then s else PlaceAfter(Follow(s, values, n), values, m - 1, n)
  }

  function Deliveries(s: nat, values: nat, m: nat, n: nat): seq<nat>
    requires s < n
    decreases m
  {
    if m == 0 then [] else Window(s, values, n) + Deliveries(Follow(s, values, n), values, m - 1, n)
  }

  lemma ShortWindow(s: nat, values: nat, n: nat)
    requires s < n && values < 2 * n - s
    ensures Window(s, values, n) == Walk(s, values, n)
  {
    forall j | 0 <= j < values ensures Window(s, values, n)[j] == Walk(s, values, n)[j] {
      WrapSmall(j, values + 1);
    }
  }

  lemma FullWindow(s: nat, values: nat, n: nat)
    requires s < n && values >= 2 * n - s
    requires values == 2 * n - s || s == 0
    ensures Window(s, values, n) == Walk(s, values, n)
  {
    hide Wrap, Walk, Repeated;
    var win, walk := Window(s, values, n), Walk(s, values, n);
    forall j | 0 <= j < values ensures win[j] == walk[j] {
      if s == 0 {
        WrapHalves(j, n);
        assert win[j] == Wrap(0 + Wrap(j, 2 * n), n);
      } else {
        WrapSmall(j, values);
      }
    }
  }

  lemma BrokenWindow(s: nat, values: nat, n: nat)
    requires 0 < s < n && values > 2 * n - s
    ensures Window(s, values, n) != Walk(s, values, n)
  {
    var L := 2 * n - s;
    WrapSmall(L, L);
    WrapSmall(s, n);
    WrapSmall(s + L, n);
    assert Window(s, values, n)[L] == s && Walk(s, values, n)[L] == 0;
  }

  /** Exactly when an advance is a clean stretch of the circle. */
  lemma WindowExact(s: nat, values: nat, n: nat)
    requires s < n
    ensures Window(s, values, n) == Walk(s, values, n) <==> values <= 2 * n - s || s == 0
  {
    hide Window, Walk;
    if values < 2 * n - s { ShortWindow(s, values, n); }
    else if values == 2 * n - s || s == 0 { FullWindow(s, values, n); }
    else { BrokenWindow(s, values, n); }
  }

  /** Exactly when an advance leaves the ring at the place after the stretch. */
  lemma FollowExact(s: nat, values: nat, n: nat)
    requires s < n
    ensures Follow(s, values, n) == Wrap(s + values, n) <==> values < 2 * n - s || Wrap(values, n) == 0
  {
    WrapSum(values, s, n);
    WrapSmall(Wrap(values, n) + s, n);
  }

  lemma {:induction false} DeliveriesSplit(s: nat, values: nat, k: nat, j: nat, n: nat)
    requires s < n
    ensures Deliveries(s, values, k + j, n) ==
      Deliveries(s, values, k, n) + Deliveries(PlaceAfter(s, values, k, n), values, j, n)
    decreases k
  {
    hide Window, Follow;
    if k > 0 {
      DeliveriesSplit(Follow(s, values, n), values, k - 1, j, n);
    }
  }

  /** A place from which every advance is a clean stretch of the circle. */
  ghost predicate Steady(s: nat, values: nat, n: nat)
    requires n > 0
  {
    values <= n || (s == 0 && Wrap(values, n) == 0)
  }

  lemma SteadyStep(s: nat, values: nat, n: nat)
    requires s < n && Steady(s, values, n)
    ensures Window(s, values, n) == Walk(s, values, n)
    ensures Follow(s, values, n) == Wrap(s + values, n)
    ensures Steady(Follow(s, values, n), values, n)
  {
    WindowExact(s, values, n);
    FollowExact(s, values, n);
  }

  lemma CleanStep(s: nat, values: nat, k: nat, n: nat)
    requires s < n
    requires Window(s, values, n) == Walk(s, values, n) && Follow(s, values, n) == Wrap(s + values, n)
    requires Deliveries(Wrap(s + values, n), values, k, n) == Walk(Wrap(s + values, n), k * values, n)
    ensures Deliveries(s, values, k + 1, n) == Walk(s, (k + 1) * values, n)
  {
    hide Window, Follow, Walk, Wrap;
    WalkAppend(s, values, k * values, n);
    assert values + k * values == (k + 1) * values;
  }

  lemma {:induction false} DeliveriesAreWalk(s: nat, values: nat, m: nat, n: nat)
    requires s < n && Steady(s, values, n)
    ensures Deliveries(s, values, m, n) == Walk(s, m * values, n)
    decreases m
  {
    hide Window, Follow;
    if m > 0 {
      SteadyStep(s, values, n);
      DeliveriesAreWalk(Follow(s, values, n), values, m - 1, n);
      CleanStep(s, values, m - 1, n);
    }
  }

  // ---- Counting ----

  /** How often `x` occurs in `s`. */
  function Count<T(==)>(s: seq<T>, x: T): nat {
    if s == [] then 0 else Count(s[..|s| - 1], x) + (if s[|s| - 1] == x then 1 else 0)
  }

  lemma CountEmpty<T>(x: T)
    ensures Count([], x) == 0
  {
  }

  lemma CountSnoc<T>(s: seq<T>, y: T, x: T)
    ensures Count(s + [y], x) == Count(s, x) + (if y == x then 1 else 0)
  {
    assert (s + [y])[..|s|] == s;
  }

  lemma {:induction false} CountAppend<T>(a: seq<T>, b: seq<T>, x: T)
    ensures Count(a + b, x) == Count(a, x) + Count(b, x)
  {
    if b == [] {
      assert a + b == a;
    } else {
      var b', y := b[..|b| - 1], b[|b| - 1];
      CountAppend(a, b', x);
      CountSnoc(a + b', y, x);
      assert a + b == (a + b') + [y];
    }
  }

  function Distance(s: nat, i: nat, n: nat): nat
    requires s < n && i < n
  {
    if s <= i then i - s else i + n - s
  }

  lemma WalkHits(s: nat, m: nat, i: nat, n: nat)
    requires s < n && i < n
    ensures Wrap(s + m, n) == i <==> Wrap(m, n) == Distance(s, i, n)
  {
    WrapSum(m, s, n);
    WrapSmall(Wrap(m, n) + s, n);
  }

  /** How often a walk visits a place. */
  lemma {:induction false} WalkCount(s: nat, m: nat, i: nat, n: nat)
    requires s < n && i < n
    ensures Count(Walk(s, m, n), i) == Rounds(m, n) + (if Distance(s, i, n) < Wrap(m, n) then 1 else 0)
    decreases m
  {
    hide Wrap, Rounds, Count;
    if m == 0 {
      ZeroSteps(n);
      CountEmpty(i);
    } else {
      WalkCount(s, m - 1, i, n);
      CountSnoc(Walk(s, m - 1, n), Wrap(s + m - 1, n), i);
      WrapStep(m - 1, n);
      WalkHits(s, m - 1, i, n);
    }
  }

  /** `c` is the fair share of `total` hand-outs among `n` members, rounded down or up. */
  ghost predicate FairShare(c: nat, total: int, n: nat)
    requires n > 0
  {
    c == total / n || c == (total + n - 1) / n
  }

  lemma {:induction false} RoundUp(total: nat, n: nat)
    requires n > 0
    ensures Rounds(total + n - 1, n) == Rounds(total, n) + (if Wrap(total, n) == 0 then 0 else 1)
    decreases total
  {
    if total >= n { RoundUp(total - n, n); }
  }

  lemma FairShareMeans(c: nat, total: nat, n: nat)
    requires n > 0
    ensures FairShare(c, total, n) <==>
      c == Rounds(total, n) || (c == Rounds(total, n) + 1 && Wrap(total, n) != 0)
  {
    WrapIsMod(total, n);
    WrapIsMod(total + n - 1, n);
    RoundUp(total, n);
  }

  lemma WalkIsFair(s: nat, m: nat, i: nat, n: nat)
    requires s < n && i < n
    ensures FairShare(Count(Walk(s, m, n), i), m, n)
  {
    WalkCount(s, m, i, n);
    FairShareMeans(Count(Walk(s, m, n), i), m, n);
  }

  ghost predicate FairForever(s: nat, values: nat, n: nat)
    requires s < n
  {
    forall m: nat, i: nat :: i < n ==> FairShare(Count(Deliveries(s, values, m, n), i), m * values, n)
  }

  lemma FairWhenSteady(s: nat, values: nat, n: nat)
    requires s < n && Steady(s, values, n)
    ensures FairForever(s, values, n)
  {
    forall m: nat, i: nat | i < n
      ensures FairShare(Count(Deliveries(s, values, m, n), i), m * values, n)
    {
      DeliveriesAreWalk(s, values, m, n);
      WalkIsFair(s, m * values, i, n);
    }
  }

  // ---- Where fairness breaks ----

  /** The ring is stuck when an advance leaves it at the same place. */
  ghost predicate Stuck(s: nat, values: nat, n: nat) {
    values >= 2 * n - s
  }

  /** With more values than places the ring moves on without wrapping until it is stuck. */
  lemma {:induction false} GetsStuck(s: nat, values: nat, n: nat) returns (k: nat, u: nat)
    requires s < n < values
    ensures u == PlaceAfter(s, values, k, n)
    ensures Stuck(u, values, n)
    ensures if k == 0 then u == s else u > 0
    ensures Deliveries(s, values, k, n) == Walk(s, k * values, n)
    decreases n - s
  {
    if Stuck(s, values, n) {
      k, u := 0, s;
    } else {
      ShortWindow(s, values, n);
      WrapSmall(s + values, n);
      var k': nat;
      k', u := GetsStuck(s + values - n, values, n);
      k := k' + 1;
      CleanStep(s, values, k', n);
    }
  }

  /** Counts in the repeated window of a stuck ring entered behind place 0: the entry place
      comes up at least once more per repetition than the place just before it. */
  lemma {:induction false} StuckCounts(s: nat, m: nat, n: nat)
    requires 0 < s < n
    ensures var L := 2 * n - s;
      var r := Repeated(Walk(s, L, n), m);
      Count<nat>(r, s) - Count<nat>(r, s - 1) == Rounds(m, L) + (if Wrap(m, L) == 0 || Wrap(m, L) == n then 0 else 1)
    decreases m
  {
    hide Wrap, Rounds, Count, Walk;
    if m == 0 {
      ZeroSteps(2 * n - s);
      CountEmpty(s);
      CountEmpty<nat>(s - 1);
    } else {
      var L := 2 * n - s;
      StuckCounts(s, m - 1, n);
      var w := Walk(s, L, n);
      var r := Wrap(m - 1, L);
      CountSnoc(Repeated(w, m - 1), w[r], s);
      CountSnoc<nat>(Repeated(w, m - 1), w[r], s - 1);
      WrapStep(m - 1, L);
      WrapSmall(s + r, n);
    }
  }

  /** Two places that a stuck ring treats differently in every single advance. */
  lemma StuckIsLopsided(s: nat, values: nat, n: nat) returns (a: nat, b: nat)
    requires s < n < values && Stuck(s, values, n) && !Steady(s, values, n)
    ensures a < n && b < n
    ensures Count(Window(s, values, n), a) > Count(Window(s, values, n), b)
  {
    hide Count, Walk, Repeated;
    if s == 0 {
      a, b := 0, n - 1;
      WindowExact(0, values, n);
      WalkCount(0, values, 0, n);
      WalkCount(0, values, n - 1, n);
    } else {
      a, b := s, s - 1;
      StuckCounts(s, values, n);
      assert Rounds(values, 2 * n - s) == 1 + Rounds(values - (2 * n - s), 2 * n - s);
      assert Window(s, values, n) == Repeated(Walk(s, 2 * n - s, n), values);
    }
  }

  lemma StuckRepeats(s: nat, values: nat, n: nat, i: nat)
    requires s < n && Stuck(s, values, n)
    ensures Count(Deliveries(s, values, 3, n), i) == 3 * Count(Window(s, values, n), i)
  {
    var w := Window(s, values, n);
    var d0, d1, d2 := Deliveries(s, values, 0, n), Deliveries(s, values, 1, n), Deliveries(s, values, 2, n);
    CountAppend(w, d0, i);
    CountAppend(w, d1, i);
    CountAppend(w, d2, i);
  }

  lemma LopsidedTotal(s: nat, values: nat, k: nat, n: nat, a: nat, b: nat)
    requires s < n && a < n && b < n
    requires Deliveries(s, values, k, n) == Walk(s, k * values, n)
    requires var u := PlaceAfter(s, values, k, n);
      Stuck(u, values, n) && Count(Window(u, values, n), a) > Count(Window(u, values, n), b)
    ensures var all := Deliveries(s, values, k + 3, n); Count(all, a) >= Count(all, b) + 2
  {
    hide Window, Follow, Walk, Count, Deliveries, PlaceAfter;
    var u := PlaceAfter(s, values, k, n);
    DeliveriesSplit(s, values, k, 3, n);
    var before, rest := Deliveries(s, values, k, n), Deliveries(u, values, 3, n);
    CountAppend(before, rest, a);
    CountAppend(before, rest, b);
    StuckRepeats(u, values, n, a);
    StuckRepeats(u, values, n, b);
    WalkCount(s, k * values, a, n);
    WalkCount(s, k * values, b, n);
  }

  lemma UnfairOtherwise(s: nat, values: nat, n: nat)
    requires s < n && !Steady(s, values, n)
    ensures !FairForever(s, values, n)
  {
    hide Window, Follow, Walk, Count, Deliveries, PlaceAfter, FairShare;
    var k, u := GetsStuck(s, values, n);
    var a, b := StuckIsLopsided(u, values, n);
    LopsidedTotal(s, values, k, n, a, b);
    var m, all := k + 3, Deliveries(s, values, k + 3, n);
    FairShareMeans(Count(all, a), m * values, n);
    FairShareMeans(Count(all, b), m * values, n);
    assert !FairShare(Count(all, a), m * values, n) || !FairShare(Count(all, b), m * values, n);
  }

  lemma FairnessExact(s: nat, values: nat, n: nat)
    requires s < n
    ensures FairForever(s, values, n) <==> values <= n || (s == 0 && values % n == 0)
  {
    WrapIsMod(values, n);
    if Steady(s, values, n) { FairWhenSteady(s, values, n); } else { UnfairOtherwise(s, values, n); }
  }
}
