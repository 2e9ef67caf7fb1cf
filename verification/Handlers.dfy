/** Expanding handler sets into the handlers they stand for, with limited nesting. */
module Handlers {

  datatype Handler = Handler(name: string, isSet: bool, members: seq<string>)

  /** What the store answers for a name: a handler, nothing, an error that is only logged, or an
      internal error that ends the expansion. */
  datatype Lookup = Found(handler: Handler) | Missing | Failed | Internal

  type Store = string -> Lookup

  /** Handlers are stored under their own names. */
  ghost predicate WellNamed(store: Store) {
    forall n :: store(n).Found? ==> store(n).handler.name == n
  }

  datatype Result = Expanded(handlers: map<string, Handler>) | TooDeep | StoreFailure

  const MAX_LEVEL: nat := 3

  // ---- The reference: paths through sets ----

  predicate IsSet(store: Store, n: string) { store(n).Found? && store(n).handler.isSet }

  predicate IsLeaf(store: Store, n: string) { store(n).Found? && !store(n).handler.isSet }

  /** Every name but the last is a set that lists the next one. */
  ghost predicate Path(store: Store, p: seq<string>) {
    p != [] && forall i :: 0 <= i < |p| - 1 ==> IsSet(store, p[i]) && p[i + 1] in store(p[i]).handler.members
  }

  /** `n` is named, or listed by sets within sets, no path being longer than `depth` names. */
  ghost predicate Reach(store: Store, names: seq<string>, depth: int, n: string) {
    exists p :: Path(store, p) && |p| <= depth && p[0] in names && p[|p| - 1] == n
  }

  /** What expanding `names` at a level must give: failure exactly when an internal error is
      within reach, otherwise exactly the handlers within reach that are not sets. */
  ghost predicate IsExpansion(store: Store, names: seq<string>, level: nat, r: Result) {
    if level > MAX_LEVEL then r == TooDeep
    else
      var depth := MAX_LEVEL + 1 - level;
      match r
      case TooDeep => false
      case StoreFailure => exists n :: store(n).Internal? && Reach(store, names, depth, n)
      case Expanded(handlers) =>
        && (forall n :: store(n).Internal? ==> !Reach(store, names, depth, n))
        && (forall n :: n in handlers <==> IsLeaf(store, n) && Reach(store, names, depth, n))
        && (forall n :: n in handlers ==> handlers[n] == store(n).handler)
  }

  // ---- Reaching, one level at a time ----

  lemma PathTail(store: Store, p: seq<string>)
    requires Path(store, p) && |p| > 1
    ensures IsSet(store, p[0]) && Path(store, p[1..]) && p[1..][0] in store(p[0]).handler.members
  {
    var q := p[1..];
    forall i | 0 <= i < |q| - 1 ensures IsSet(store, q[i]) && q[i + 1] in store(q[i]).handler.members {
      assert q[i] == p[i + 1] && q[i + 1] == p[i + 2];
    }
  }

  lemma PathCons(store: Store, m: string, q: seq<string>)
    requires IsSet(store, m) && Path(store, q) && q[0] in store(m).handler.members
    ensures Path(store, [m] + q)
  {
    var p := [m] + q;
    forall i | 0 <= i < |p| - 1 ensures IsSet(store, p[i]) && p[i + 1] in store(p[i]).handler.members {
      if i > 0 { assert p[i] == q[i - 1] && p[i + 1] == q[i]; }
    }
  }

  lemma ReachOne(store: Store, m: string, depth: int, n: string)
    ensures Reach(store, [m], depth, n) <==>
      depth >= 1 && (m == n || (IsSet(store, m) && Reach(store, store(m).handler.members, depth - 1, n)))
  {
    if Reach(store, [m], depth, n) {
      var p :| Path(store, p) && |p| <= depth && p[0] in [m] && p[|p| - 1] == n;
      if |p| > 1 {
        PathTail(store, p);
        assert p[1..][|p| - 2] == n;
      }
    }
    if depth >= 1 && m == n {
      assert Path(store, [m]) && [m][0] in [m];
    }
    if depth >= 1 && IsSet(store, m) && Reach(store, store(m).handler.members, depth - 1, n) {
      var q :| Path(store, q) && |q| <= depth - 1 && q[0] in store(m).handler.members && q[|q| - 1] == n;
      PathCons(store, m, q);
      assert ([m] + q)[0] in [m] && ([m] + q)[|q|] == n;
    }
  }

  lemma ReachMore(store: Store, names: seq<string>, m: string, depth: int, n: string)
    ensures Reach(store, names + [m], depth, n) <==> Reach(store, names, depth, n) || Reach(store, [m], depth, n)
  {
    if Reach(store, names + [m], depth, n) {
      var p :| Path(store, p) && |p| <= depth && p[0] in names + [m] && p[|p| - 1] == n;
      if p[0] !in names { assert p[0] in [m]; }
    }
    if Reach(store, names, depth, n) {
      var p :| Path(store, p) && |p| <= depth && p[0] in names && p[|p| - 1] == n;
      assert p[0] in names + [m];
    }
    if Reach(store, [m], depth, n) {
      var p :| Path(store, p) && |p| <= depth && p[0] in [m] && p[|p| - 1] == n;
      assert p[0] in names + [m];
    }
  }

  lemma StopAtLeaf(store: Store, m: string, depth: int, n: string)
    requires depth >= 1 && !IsSet(store, m)
    ensures Reach(store, [m], depth, n) <==> m == n
  {
    ReachOne(store, m, depth, n);
  }

  // ---- The code ----

  /** One more name done: what the first names gave, together with what this one gives. */
  lemma MergeExpansion(store: Store, names: seq<string>, m: string, level: nat, a: map<string, Handler>,
                       b: map<string, Handler>)
    requires level <= MAX_LEVEL
    requires IsExpansion(store, names, level, Expanded(a)) && IsExpansion(store, [m], level, Expanded(b))
    ensures IsExpansion(store, names + [m], level, Expanded(b + a))
  {
    hide Reach;
    var depth := MAX_LEVEL + 1 - level;
    forall n ensures Reach(store, names + [m], depth, n) <==> Reach(store, names, depth, n) || Reach(store, [m], depth, n) {
      ReachMore(store, names, m, depth, n);
    }
  }

  lemma FailureSpreads(store: Store, names: seq<string>, m: string, level: nat, rest: seq<string>)
    requires level <= MAX_LEVEL && IsExpansion(store, [m], level, StoreFailure)
    ensures IsExpansion(store, names + [m] + rest, level, StoreFailure)
  {
    var depth := MAX_LEVEL + 1 - level;
    var n :| store(n).Internal? && Reach(store, [m], depth, n);
    var p :| Path(store, p) && |p| <= depth && p[0] in [m] && p[|p| - 1] == n;
    assert p[0] in names + [m] + rest;
  }

  /** What a single name expands to. */
  lemma ExpandLeaf(store: Store, m: string, level: nat)
    requires level <= MAX_LEVEL && WellNamed(store) && !IsSet(store, m)
    ensures store(m).Internal? ==> IsExpansion(store, [m], level, StoreFailure)
    ensures !store(m).Internal? ==>
      IsExpansion(store, [m], level, Expanded(if store(m).Found? then map[m := store(m).handler] else map[]))
  {
    hide Reach;
    var depth := MAX_LEVEL + 1 - level;
    forall n ensures Reach(store, [m], depth, n) <==> m == n { StopAtLeaf(store, m, depth, n); }
    if store(m).Internal? { assert Reach(store, [m], depth, m); }
  }

  lemma ExpandSet(store: Store, m: string, level: nat, r: Result)
    requires level <= MAX_LEVEL && IsSet(store, m) && IsExpansion(store, store(m).handler.members, level + 1, r)
    ensures r.TooDeep? ==> IsExpansion(store, [m], level, Expanded(map[]))
    ensures !r.TooDeep? ==> IsExpansion(store, [m], level, r)
  {
    hide Reach;
    var depth := MAX_LEVEL + 1 - level;
    forall n ensures Reach(store, [m], depth, n) <==> m == n || Reach(store, store(m).handler.members, depth - 1, n) {
      ReachOne(store, m, depth, n);
    }
    if r.TooDeep? {
      forall n ensures !Reach(store, store(m).handler.members, 0, n) { NoShortPath(store, store(m).handler.members, n); }
    }
  }

  lemma NoShortPath(store: Store, names: seq<string>, n: string)
    ensures !Reach(store, names, 0, n)
  {
  }

  /** For every handler graph, cyclic or not, the expansion ends and is exact. */
  method ExpandHandlers(store: Store, handlers: seq<string>, level: nat) returns (r: Result)
    requires WellNamed(store)
    ensures IsExpansion(store, handlers, level, r)
    decreases MAX_LEVEL + 1 - level
  {
    hide IsExpansion, Reach;
    if level > MAX_LEVEL {
      DeepIsTooDeep(store, handlers, level);
      return TooDeep;
    }
    var expanded: map<string, Handler> := map[];
    NoNames(store, level);
    for i := 0 to |handlers|
      invariant IsExpansion(store, handlers[..i], level, Expanded(expanded))
    {
      var name := handlers[i];
      assert handlers[..i + 1] == handlers[..i] + [name];
      assert handlers == handlers[..i] + [name] + handlers[i + 1..];
      var found: map<string, Handler> := map[];
      match store(name) {
        case Internal =>
          ExpandLeaf(store, name, level);
          FailureSpreads(store, handlers[..i], name, level, handlers[i + 1..]);
          return StoreFailure;
        case Missing => ExpandLeaf(store, name, level);
        case Failed => ExpandLeaf(store, name, level);
        case Found(handler) =>
          if handler.isSet {
            var sub := ExpandHandlers(store, handler.members, level + 1);
            ExpandSet(store, name, level, sub);
            if sub.StoreFailure? {
              FailureSpreads(store, handlers[..i], name, level, handlers[i + 1..]);
              return StoreFailure;
            }
            if sub.Expanded? {
              found := sub.handlers;
            }
          } else {
            ExpandLeaf(store, name, level);
            found := map[handler.name := handler];
          }
      }
      MergeExpansion(store, handlers[..i], name, level, expanded, found);
      // an entry that is already there stays
      expanded := found + expanded;
    }
    assert handlers[..|handlers|] == handlers;
    r := Expanded(expanded);
  }

  lemma DeepIsTooDeep(store: Store, names: seq<string>, level: nat)
    requires level > MAX_LEVEL
    ensures IsExpansion(store, names, level, TooDeep)
  {
  }

  lemma NoNames(store: Store, level: nat)
    requires level <= MAX_LEVEL
    ensures IsExpansion(store, [], level, Expanded(map[]))
  {
  }

  /** The answer depends on which names are given, not on their order or repetition. */
  lemma OrderDoesNotMatter(store: Store, a: seq<string>, b: seq<string>, level: nat, r: Result, q: Result)
    requires forall n :: n in a <==> n in b
    requires IsExpansion(store, a, level, r) && IsExpansion(store, b, level, q)
    ensures r == q
  {
    var depth := MAX_LEVEL + 1 - level;
    forall n ensures Reach(store, a, depth, n) <==> Reach(store, b, depth, n) { SameNames(store, a, b, depth, n); }
    hide Reach;
    if level <= MAX_LEVEL && r.Expanded? && q.Expanded? {
      assert r.handlers.Keys == q.handlers.Keys;
      assert r.handlers == q.handlers;
    }
  }

  lemma SameNames(store: Store, a: seq<string>, b: seq<string>, depth: int, n: string)
    requires forall m :: m in a <==> m in b
    ensures Reach(store, a, depth, n) <==> Reach(store, b, depth, n)
  {
  }

  ghost predicate Lists(store: Store, a: string, n: string) { IsSet(store, a) && n in store(a).handler.members }

  ghost predicate ReachedAtOnce(store: Store, names: seq<string>, n: string) {
    || n in names
    || (exists a :: a in names && Lists(store, a, n))
    || (exists a, b :: a in names && Lists(store, a, b) && Lists(store, b, n))
  }

  lemma ThreeNames(store: Store, names: seq<string>, n: string)
    ensures Reach(store, names, 3, n) <==> ReachedAtOnce(store, names, n)
  {
    if Reach(store, names, 3, n) {
      var p :| Path(store, p) && |p| <= 3 && p[0] in names && p[|p| - 1] == n;
      if |p| >= 2 { assert Lists(store, p[0], p[1]); }
      if |p| == 3 { assert Lists(store, p[1], p[2]); }
    }
    if n in names {
      assert Path(store, [n]) && [n][0] in names;
    }
    if a :| a in names && Lists(store, a, n) {
      assert Path(store, [a, n]) && [a, n][0] in names && [a, n][1] == n;
    }
    if a, b :| a in names && Lists(store, a, b) && Lists(store, b, n) {
      assert Path(store, [a, b, n]) && [a, b, n][0] in names && [a, b, n][2] == n;
    }
  }

  /** As an event's handlers are expanded: exactly the handlers that are not sets and are named,
      or listed by a named set, or listed by a set that a named set lists. */
  lemma TwoNestedSets(store: Store, names: seq<string>, handlers: map<string, Handler>, n: string)
    requires IsExpansion(store, names, 1, Expanded(handlers))
    ensures n in handlers <==> IsLeaf(store, n) && ReachedAtOnce(store, names, n)
  {
    ThreeNames(store, names, n);
  }
}
