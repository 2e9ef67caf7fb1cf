/** Which items a ring hands out when its trigger fires, and how fair that is. The item names
    arrive sorted, as a prefix read of the store returns them. */
module RingSelection {
  import opened Order
  import opened Etcd
  import Circle

  // ---- The code's selection ----

  function Take<T>(s: seq<T>, n: nat): seq<T> {
    if n < |s| then s[..n] else s
  }

  /** The position of the first item that is not below `p`. */
  function LowerBound(items: seq<string>, p: string): (r: nat)
    ensures r <= |items|
    ensures forall i :: 0 <= i < r ==> Less(items[i], p)
    ensures r < |items| ==> !Less(items[r], p)
  {
    if items == [] || !Less(items[0], p) then 0 else 1 + LowerBound(items[1..], p)
  }

  /** The read from a trigger value on: the items at or after it, at most `n` of them. */
  function ReadFrom(items: seq<string>, p: string, n: nat): seq<string> {
    Take(items[LowerBound(items, p)..], n)
  }

  /** Up to `n` items from the trigger on; short answers are topped up from the front of the ring. */
  function NextInRing(items: seq<string>, prev: Option<string>, n: nat): seq<string>
    decreases prev.Some?
  {
    var got := if prev.None? then Take(items, n) else ReadFrom(items, prev.value, n);
    if got == [] then (if prev.None? then [] else NextInRing(items, None, n))
    else if |got| < n then got + Take(items, n - |got|)
    else got
  }

  /** The entries an advance hands out, and the item it makes the next trigger. */
  function Delivered(found: seq<string>, values: nat): (r: seq<string>)
    requires found != []
    ensures |r| == values
  {
    Circle.Repeated(found, values)
  }

  function Following(found: seq<string>, values: nat): string
    requires found != []
  {
    if |found| < values + 1 then found[0] else found[|found| - 1]
  }

  function Window(items: seq<string>, t: string, values: nat): (r: seq<string>)
    requires items != []
    ensures |r| == values
  {
    FoundNonEmpty(items, t, values + 1);
    Delivered(NextInRing(items, Some(t), values + 1), values)
  }

  function Follow(items: seq<string>, t: string, values: nat): string
    requires items != []
  {
    FoundNonEmpty(items, t, values + 1);
    Following(NextInRing(items, Some(t), values + 1), values)
  }

  /** Everything handed out by `m` advances of a ring whose items do not change. */
  function Deliveries(items: seq<string>, t: string, values: nat, m: nat): seq<string>
    requires items != []
    decreases m
  {
    if m == 0 then []
    else Window(items, t, values) + Deliveries(items, Follow(items, t, values), values, m - 1)
  }

  lemma FoundNonEmpty(items: seq<string>, t: string, n: nat)
    requires items != [] && n > 0
    ensures NextInRing(items, Some(t), n) != []
  {
  }

  // ---- The items at the places of the circle ----

  /** Where the circle is entered for a trigger value, present in the ring or not. */
  function Start(items: seq<string>, p: string): (s: nat)
    requires items != []
    ensures s < |items|
  {
    var lb := LowerBound(items, p);
    if lb == |items| then 0 else lb
  }

  /** `s` is the place of the least item that is not below `t`, or the first place if they all are. */
  ghost predicate Enters(items: seq<string>, t: string, s: nat) {
    && s < |items|
    && if exists x :: x in items && !Less(x, t)
       then !Less(items[s], t) && forall x :: x in items && !Less(x, t) ==> !Less(x, items[s])
       else s == 0
  }

  /** There is one such place, and it is where the circle is entered. */
  lemma EntersExactly(items: seq<string>, t: string, s: nat)
    requires StrictlySorted(items)
    ensures Enters(items, t, s) <==> items != [] && s == Start(items, t)
  {
    hide LowerBound, Start;
    if items != [] {
      StartEnters(items, t);
      assert items[Start(items, t)] in items;
      assert s < |items| ==> items[s] in items;
    }
  }

  lemma StartEnters(items: seq<string>, t: string)
    requires StrictlySorted(items) && items != []
    ensures Enters(items, t, Start(items, t))
  {
    hide LowerBound;
    var s := Start(items, t);
    if Less(items[s], t) {
      assert forall x :: x in items ==> Less(x, t);
    } else {
      assert items[s] in items;
      forall x | x in items && !Less(x, t) ensures !Less(x, items[s]) {
        var i :| 0 <= i < |items| && items[i] == x;
        LessTotal(items[s], items[i]);
      }
    }
  }

  /** Where the reads begin: at the trigger, or at the front when there is none to go by. */
  ghost predicate Begins(items: seq<string>, prev: Option<string>, s: nat) {
    if prev.None? then s == 0 && items != [] else Enters(items, prev.value, s)
  }

  predicate Within(places: seq<nat>, n: nat) {
    forall j :: 0 <= j < |places| ==> places[j] < n
  }

  /** The items at a list of places. */
  function At(items: seq<string>, places: seq<nat>): (r: seq<string>)
    requires Within(places, |items|)
    ensures |r| == |places| && forall j {:trigger r[j]} :: 0 <= j < |r| ==> r[j] == items[places[j]]
  {
    if places == [] then [] else At(items, places[..|places| - 1]) + [items[places[|places| - 1]]]
  }

  lemma StartOfItem(items: seq<string>, i: nat)
    requires StrictlySorted(items) && i < |items|
    ensures Start(items, items[i]) == i
  {
    var lb := LowerBound(items, items[i]);
    LessTotal(items[i], items[i]);
    assert forall j :: 0 <= j < i ==> Less(items[j], items[i]);
  }

  lemma FoundShape(items: seq<string>, t: string, n: nat)
    requires items != [] && n > 0
    ensures var s := Start(items, t);
      NextInRing(items, Some(t), n) ==
        if n <= |items| - s then items[s..s + n] else items[s..] + Take(items, n - (|items| - s))
  {
  }

  lemma FoundAt(items: seq<string>, t: string, n: nat, j: nat)
    requires items != [] && j < Circle.Reach(Start(items, t), n, |items|)
    ensures |NextInRing(items, Some(t), n)| == Circle.Reach(Start(items, t), n, |items|)
    ensures NextInRing(items, Some(t), n)[j] == items[Circle.Wrap(Start(items, t) + j, |items|)]
  {
    hide NextInRing, Start, Circle.Wrap;
    FoundShape(items, t, n);
    Circle.WrapSmall(Start(items, t) + j, |items|);
  }

  /** What the reads return: item after item round the ring from where they begin, as many as
      asked for, but never more than the rest of the ring and one whole round. */
  lemma FoundExactly(items: seq<string>, prev: Option<string>, n: nat, s: nat)
    requires StrictlySorted(items) && n > 0 && Begins(items, prev, s)
    ensures var found, N := NextInRing(items, prev, n), |items|;
      && |found| == (if n < 2 * N - s then n else 2 * N - s)
      && forall j :: 0 <= j < |found| ==> found[j] == items[(s + j) % N]
  {
    hide NextInRing, StrictlySorted;
    FoundEntry(items, prev, n, s, 0);
    var found, N := NextInRing(items, prev, n), |items|;
    forall j | 0 <= j < |found| ensures found[j] == items[(s + j) % N] {
      FoundEntry(items, prev, n, s, j);
    }
  }

  lemma FoundEntry(items: seq<string>, prev: Option<string>, n: nat, s: nat, j: nat)
    requires StrictlySorted(items) && n > 0 && Begins(items, prev, s) && j < Circle.Reach(s, n, |items|)
    ensures |NextInRing(items, prev, n)| == Circle.Reach(s, n, |items|)
    ensures NextInRing(items, prev, n)[j] == items[(s + j) % |items|]
  {
    hide StrictlySorted, Start, Enters, Circle.Wrap;
    Circle.WrapIsMod(s + j, |items|);
    if prev.Some? {
      EntersExactly(items, prev.value, s);
      FoundAt(items, prev.value, n, j);
    } else {
      Circle.WrapSmall(j, |items|);
    }
  }

  /** A stretch of the ring from a place on, and the item after it. */
  ghost predicate Stretch(items: seq<string>, s: nat, values: nat, out: seq<string>, next: string) {
    && items != []
    && |out| == values && (forall j :: 0 <= j < values ==> out[j] == items[(s + j) % |items|])
    && next == items[(s + values) % |items|]
  }

  /** So, with no more values than items, an advance hands out the items from there on and leaves
      the trigger on the one after them. */
  lemma AdvanceFrom(items: seq<string>, prev: Option<string>, values: nat, s: nat)
    requires StrictlySorted(items) && Begins(items, prev, s) && values <= |items|
    ensures var found := NextInRing(items, prev, values + 1);
      found != [] && Stretch(items, s, values, Delivered(found, values), Following(found, values))
  {
    hide NextInRing, StrictlySorted, Circle.Wrap;
    FoundExactly(items, prev, values + 1, s);
    var found, N := NextInRing(items, prev, values + 1), |items|;
    forall j | 0 <= j < values ensures Delivered(found, values)[j] == items[(s + j) % N] {
      Circle.WrapSmall(j, |found|);
    }
  }

  /** Whatever has become of the item the trigger names, an advance begins with the least item
      that is not below it, or with the first item of the ring if they all are. */
  lemma BeginsAtTrigger(items: seq<string>, t: string, values: nat)
    requires StrictlySorted(items) && items != [] && values > 0
    ensures var x := Window(items, t, values)[0];
      && (forall y :: y in items && !Less(y, t) ==> !Less(x, t) && !Less(y, x))
      && ((forall y :: y in items ==> Less(y, t)) ==> x == items[0])
  {
    hide StrictlySorted, Start, NextInRing, Circle.Wrap;
    StartEnters(items, t);
    FoundAt(items, t, values + 1, 0);
    Circle.WrapSmall(Start(items, t), |items|);
    Circle.WrapSmall(0, Circle.Reach(Start(items, t), values + 1, |items|));
  }

  /** What the reads return is a stretch of the circle. */
  lemma FoundIsWalk(items: seq<string>, t: string, n: nat)
    requires items != [] && n > 0
    ensures NextInRing(items, Some(t), n) == At(items, Circle.Found(Start(items, t), n, |items|))
  {
    hide NextInRing, Start, At, Circle.Walk, Circle.Wrap;
    FoundAt(items, t, n, 0);
    var found, places := NextInRing(items, Some(t), n), Circle.Found(Start(items, t), n, |items|);
    forall j | 0 <= j < |found| ensures found[j] == At(items, places)[j] {
      FoundAt(items, t, n, j);
    }
  }

  lemma RepeatedAt(items: seq<string>, places: seq<nat>, m: nat)
    requires places != [] && Within(places, |items|)
    ensures Circle.Repeated(At(items, places), m) == At(items, Circle.Repeated(places, m))
  {
    hide At, Circle.Repeated, Circle.Wrap;
  }

  lemma WindowOnCircle(items: seq<string>, t: string, values: nat)
    requires items != []
    ensures Window(items, t, values) == At(items, Circle.Window(Start(items, t), values, |items|))
  {
    FoundIsWalk(items, t, values + 1);
    hide NextInRing, Start, At, Circle.Repeated, Circle.Walk, Circle.Wrap;
    RepeatedAt(items, Circle.Found(Start(items, t), values + 1, |items|), values);
  }

  lemma FollowOnCircle(items: seq<string>, t: string, values: nat)
    requires items != []
    ensures Follow(items, t, values) == items[Circle.Follow(Start(items, t), values, |items|)]
  {
    FoundIsWalk(items, t, values + 1);
    hide NextInRing, Start, At, Circle.Walk;
    Circle.WrapSmall(Start(items, t), |items|);
  }

  /** One advance, item by item, is one advance of the circle. */
  lemma AdvanceOnCircle(items: seq<string>, t: string, values: nat)
    requires StrictlySorted(items) && items != []
    ensures var s, N := Start(items, t), |items|;
      && Window(items, t, values) == At(items, Circle.Window(s, values, N))
      && Follow(items, t, values) == items[Circle.Follow(s, values, N)]
      && Start(items, Follow(items, t, values)) == Circle.Follow(s, values, N)
  {
    hide StrictlySorted, Window, Follow, Start, At;
    WindowOnCircle(items, t, values);
    FollowOnCircle(items, t, values);
    StartOfItem(items, Circle.Follow(Start(items, t), values, |items|));
  }

  /** Exactly when an advance hands out the next `values` items of the circle. */
  lemma WindowExact(items: seq<string>, t: string, values: nat, s: nat)
    requires StrictlySorted(items) && Enters(items, t, s)
    ensures var N := |items|;
      Window(items, t, values) == At(items, Circle.Walk(s, values, N)) <==> values <= 2 * N - s || s == 0
  {
    hide StrictlySorted, Window, Start, At, Circle.Window, Circle.Walk;
    EntersExactly(items, t, s);
    var N := |items|;
    WindowOnCircle(items, t, values);
    Circle.WindowExact(s, values, N);
    SamePlaces(items, Circle.Window(s, values, N), Circle.Walk(s, values, N));
  }

  /** Exactly when an advance leaves the trigger on the item after the ones it hands out. */
  lemma FollowExact(items: seq<string>, t: string, values: nat, s: nat)
    requires StrictlySorted(items) && Enters(items, t, s)
    ensures var N := |items|;
      Follow(items, t, values) == items[(s + values) % N] <==> values < 2 * N - s || values % N == 0
  {
    hide StrictlySorted, Follow, Start, Circle.Follow, Circle.Wrap;
    EntersExactly(items, t, s);
    var N := |items|;
    FollowOnCircle(items, t, values);
    Circle.FollowExact(s, values, N);
    Circle.WrapIsMod(values, N);
    Circle.WrapIsMod(s + values, N);
    SortedDistinct(items);
  }

  lemma SamePlaces(items: seq<string>, a: seq<nat>, b: seq<nat>)
    requires StrictlySorted(items)
    requires Within(a, |items|) && Within(b, |items|)
    ensures At(items, a) == At(items, b) <==> a == b
  {
    hide StrictlySorted, At;
    SortedDistinct(items);
    if At(items, a) == At(items, b) {
      forall j | 0 <= j < |a| ensures a[j] == b[j] {
        assert items[a[j]] == At(items, a)[j] == At(items, b)[j] == items[b[j]];
      }
    }
  }

  /** The common case: with no more values than items an advance is exactly one stretch of the
      circle, wherever the trigger points and whether or not its item is still there. */
  lemma AdvanceWithinRing(items: seq<string>, t: string, values: nat, s: nat)
    requires StrictlySorted(items) && Enters(items, t, s) && values <= |items|
    ensures |Window(items, t, values)| == values
    ensures forall j :: 0 <= j < values ==> Window(items, t, values)[j] == items[(s + j) % |items|]
    ensures Follow(items, t, values) == items[(s + values) % |items|]
  {
    hide StrictlySorted, Window, Follow, Start, Enters, Circle.Wrap;
    EntersExactly(items, t, s);
    FollowExact(items, t, values, s);
    Circle.WrapIsMod(values, |items|);
    Circle.WrapSmall(values, |items|);
    forall j | 0 <= j < values ensures Window(items, t, values)[j] == items[(s + j) % |items|] {
      WindowAt(items, t, values, j);
    }
  }

  lemma WindowAt(items: seq<string>, t: string, values: nat, j: nat)
    requires items != [] && j < values <= |items|
    ensures Window(items, t, values)[j] == items[(Start(items, t) + j) % |items|]
  {
    hide Window, Start, At, Circle.Window, Circle.Walk, Circle.Wrap;
    WindowOnCircle(items, t, values);
    Circle.ShortWindow(Start(items, t), values, |items|);
    Circle.WrapIsMod(Start(items, t) + j, |items|);
  }

  /** Asking for more than there is: still exactly `values` entries, all of them members, and
      every member among them. */
  lemma OverRequest(items: seq<string>, t: string, values: nat)
    requires StrictlySorted(items) && items != [] && values > |items|
    ensures |Window(items, t, values)| == values
    ensures forall x :: x in Window(items, t, values) <==> x in items
  {
    hide StrictlySorted, Window, Start, At, Circle.Window;
    WindowOnCircle(items, t, values);
    forall x | x in items ensures x in Window(items, t, values) {
      var i :| 0 <= i < |items| && items[i] == x;
      var j := PlaceInWindow(Start(items, t), values, |items|, i);
      assert Window(items, t, values)[j] == x;
    }
  }

  lemma PlaceInWindow(s: nat, values: nat, n: nat, i: nat) returns (j: nat)
    requires s < n < values && i < n
    ensures j < values && Circle.Window(s, values, n)[j] == i
  {
    j := Circle.Distance(s, i, n);
    Circle.WrapSmall(s + j, n);
    Circle.WrapSmall(j, Circle.Reach(s, values + 1, n));
  }

  // ---- Any number of advances ----

  lemma AtAppend(items: seq<string>, a: seq<nat>, b: seq<nat>)
    requires Within(a, |items|) && Within(b, |items|)
    ensures Within(a + b, |items|) && At(items, a + b) == At(items, a) + At(items, b)
  {
    hide At;
  }

  lemma {:induction false} DeliveriesOnCircle(items: seq<string>, t: string, values: nat, m: nat)
    requires StrictlySorted(items) && items != []
    ensures var ps := Circle.Deliveries(Start(items, t), values, m, |items|);
      Within(ps, |items|) && Deliveries(items, t, values, m) == At(items, ps)
    decreases m
  {
    hide StrictlySorted, Window, Follow, Start, At, Within, Circle.Window, Circle.Follow;
    if m == 0 {
      NoPlaces(items);
    } else {
      AdvanceOnCircle(items, t, values);
      DeliveriesOnCircle(items, Follow(items, t, values), values, m - 1);
      var s, N := Start(items, t), |items|;
      WindowWithin(s, values, N);
      AtAppend(items, Circle.Window(s, values, N), Circle.Deliveries(Circle.Follow(s, values, N), values, m - 1, N));
    }
  }

  lemma WindowWithin(s: nat, values: nat, n: nat)
    requires s < n
    ensures Within(Circle.Window(s, values, n), n)
  {
    hide Circle.Window;
  }

  lemma NoPlaces(items: seq<string>)
    ensures Within([], |items|) && At(items, []) == []
  {
  }

  lemma {:induction false} CountAt(items: seq<string>, ps: seq<nat>, i: nat)
    requires StrictlySorted(items) && i < |items|
    requires Within(ps, |items|)
    ensures Circle.Count(At(items, ps), items[i]) == Circle.Count(ps, i)
  {
    hide StrictlySorted;
    if ps != [] {
      var front, last := ps[..|ps| - 1], ps[|ps| - 1];
      CountAt(items, front, i);
      Circle.CountSnoc(At(items, front), items[last], items[i]);
      SortedDistinct(items);
    }
  }

  /** Every member's share of any number of advances is the exact share, rounded down or up. */
  ghost predicate FairForever(items: seq<string>, t: string, values: nat)
    requires items != []
  {
    forall m: nat, i: nat :: i < |items| ==>
      Circle.FairShare(Circle.Count(Deliveries(items, t, values, m), items[i]), m * values, |items|)
  }

  /** A ring with fixed items is fair for ever if and only if no more values are asked for than
      there are members, or the walk starts at the first member and the request is a whole
      number of rounds. */
  lemma FairnessExact(items: seq<string>, t: string, values: nat, s: nat)
    requires StrictlySorted(items) && Enters(items, t, s)
    ensures FairForever(items, t, values) <==> values <= |items| || (s == 0 && values % |items| == 0)
  {
    hide StrictlySorted, Deliveries, Start, Enters, Circle.Deliveries, Circle.Count, Circle.FairShare;
    EntersExactly(items, t, s);
    var N := |items|;
    Circle.FairnessExact(s, values, N);
    forall m: nat, i: nat | i < N
      ensures Circle.Count(Deliveries(items, t, values, m), items[i]) == Circle.Count(Circle.Deliveries(s, values, m, N), i)
    {
      DeliveriesOnCircle(items, t, values, m);
      CountAt(items, Circle.Deliveries(s, values, m, N), i);
    }
    if FairForever(items, t, values) {
      forall m: nat, i: nat | i < N ensures Circle.FairShare(Circle.Count(Circle.Deliveries(s, values, m, N), i), m * values, N) {
        assert Circle.FairShare(Circle.Count(Deliveries(items, t, values, m), items[i]), m * values, N);
      }
      assert Circle.FairForever(s, values, N);
    }
    if Circle.FairForever(s, values, N) {
      assert FairForever(items, t, values);
    }
  }
}
