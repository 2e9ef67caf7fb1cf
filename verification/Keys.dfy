/** Building and parsing the keys resources are stored under. */
module Keys {

  const ROOT: string := "/sensu.io"

  /** A path component: no separators, and not one of the names path cleaning removes. */
  ghost predicate Component(s: string) {
    '/' !in s && s != "." && s != ".."
  }

  /** path.Join for components: the non-empty ones, a separator before each. */
  function Join(prefix: string, parts: seq<string>): string
    decreases |parts|
  {
    if parts == [] then prefix
    else Join(if parts[0] == "" then prefix else prefix + "/" + parts[0], parts[1..])
  }

  datatype KeyBuilder = KeyBuilder(resource: string, namespace: string, exact: bool)

  /** A whole namespace, or an unnamed object in one, ends in a separator, and so does an exact match. */
  function Build(b: KeyBuilder, keys: seq<string>): string {
    var key := Join(ROOT, [b.resource, b.namespace] + keys);
    var listed := b.namespace != "" && (keys == [] || keys[|keys| - 1] == "");
    key + (if listed then "/" else "") + (if b.exact then "/" else "")
  }

  datatype SplitKey = SplitKey(root: string, resource: string, namespace: string, name: string)

  /** strings.Split on the separator. */
  function Split(s: string): (r: seq<string>)
    ensures r != []
    decreases |s|
  {
    if s == "" then [""]
    else
      var rest := Split(s[1..]);
      if s[0] == '/' then [""] + rest else [[s[0]] + rest[0]] + rest[1..]
  }

  function Parse(key: string): SplitKey {
    var all := Split(key);
    var parts := if all[0] == "" then all[1..] else all;
    SplitKey(
      if |parts| > 0 then parts[0] else "",
      if |parts| > 1 then parts[1] else "",
      if |parts| > 2 then parts[2] else "",
      if |parts| > 3 then parts[3] else "")
  }

  function Print(k: SplitKey): string {
    Build(KeyBuilder(k.resource, k.namespace, false), [k.name])
  }

  function RingPath(namespace: string, subscription: string): string {
    Build(KeyBuilder("rings", namespace, false), [subscription])
  }

  // ---- Splitting ----

  lemma {:induction false} SplitComponent(c: string)
    requires '/' !in c
    ensures Split(c) == [c]
    decreases |c|
  {
    if c != "" {
      assert forall x :: x in c[1..] ==> x in c;
      SplitComponent(c[1..]);
      assert c == [c[0]] + c[1..];
      assert c[0] in c;
    }
  }

  lemma {:induction false} SplitJoin(c: string, s: string)
    requires '/' !in c
    ensures Split(c + "/" + s) == [c] + Split(s)
    decreases |c|
  {
    if c == "" {
      assert c + "/" + s == "/" + s && ("/" + s)[1..] == s;
    } else {
      assert forall x :: x in c[1..] ==> x in c;
      SplitJoin(c[1..], s);
      assert (c + "/" + s)[1..] == c[1..] + "/" + s;
      assert c[0] in c && c == [c[0]] + c[1..];
    }
  }

  /** Two components in front of a separator settle what follows them. */
  lemma {:induction false} PrefixComponent(a: string, b: string, x: string, y: string)
    requires '/' !in a && '/' !in b
    ensures a + "/" + x <= b + "/" + y <==> a == b && x <= y
    decreases |a|
  {
    if a == "" || b == "" {
      assert a == "" ==> (a + "/" + x)[0] == '/' && (a + "/" + x)[1..] == x;
      assert b == "" ==> (b + "/" + y)[0] == '/' && (b + "/" + y)[1..] == y;
      assert a != "" ==> a[0] in a && (a + "/" + x)[0] == a[0];
      assert b != "" ==> b[0] in b && (b + "/" + y)[0] == b[0];
      PrefixTail(a + "/" + x, b + "/" + y);
    } else {
      assert (forall c :: c in a[1..] ==> c in a) && (forall c :: c in b[1..] ==> c in b);
      PrefixComponent(a[1..], b[1..], x, y);
      assert (a + "/" + x)[1..] == a[1..] + "/" + x && (b + "/" + y)[1..] == b[1..] + "/" + y;
      assert a == [a[0]] + a[1..] && b == [b[0]] + b[1..];
      PrefixTail(a + "/" + x, b + "/" + y);
    }
  }

  lemma PrefixTail(s: string, t: string)
    requires s != "" && t != ""
    ensures s <= t <==> s[0] == t[0] && s[1..] <= t[1..]
  {
    if s[0] == t[0] && s[1..] <= t[1..] {
      assert s == [s[0]] + s[1..] && t == [t[0]] + t[1..];
    }
    if s <= t {
      assert t[1..][..|s| - 1] == s[1..];
    }
  }

  // ---- Keys in full ----

  lemma JoinTwo(prefix: string, a: string, b: string)
    ensures Join(prefix, [a, b]) == Join(Join(prefix, [a]), [b])
  {
    assert [a, b][1..] == [b];
  }

  lemma JoinOne(prefix: string, a: string)
    ensures Join(prefix, [a]) == if a == "" then prefix else prefix + "/" + a
  {
    assert [a][1..] == [];
  }

  lemma JoinThree(prefix: string, a: string, b: string, c: string)
    ensures Join(prefix, [a, b, c]) == Join(Join(Join(prefix, [a]), [b]), [c])
  {
    assert [a, b, c][1..] == [b, c];
    JoinTwo(Join(prefix, [a]), b, c);
    JoinOne(prefix, a);
  }

  lemma JoinFour(prefix: string, a: string, b: string, c: string, d: string)
    ensures Join(prefix, [a, b, c, d]) == Join(Join(Join(Join(prefix, [a]), [b]), [c]), [d])
  {
    assert [a, b, c, d][1..] == [b, c, d];
    JoinThree(Join(prefix, [a]), b, c, d);
    JoinOne(prefix, a);
  }

  function Front(resource: string): string { ROOT + "/" + resource + "/" }

  lemma ListingKey(resource: string, ns: string)
    requires resource != "" && ns != ""
    ensures Build(KeyBuilder(resource, ns, false), []) == Front(resource) + (ns + "/" + "")
  {
    assert [resource, ns] + [] == [resource, ns];
    JoinTwo(ROOT, resource, ns);
    JoinOne(ROOT, resource);
    JoinOne(ROOT + "/" + resource, ns);
  }

  lemma ResourceKey(resource: string, ns: string, name: string, exact: bool)
    requires resource != "" && name != ""
    ensures Build(KeyBuilder(resource, ns, exact), [name]) ==
      Front(resource) + (if ns == "" then name else ns + "/" + name) + (if exact then "/" else "")
  {
    assert [resource, ns] + [name] == [resource, ns, name];
    JoinThree(ROOT, resource, ns, name);
    JoinOne(ROOT, resource);
    JoinOne(ROOT + "/" + resource, ns);
    JoinOne(Join(ROOT + "/" + resource, [ns]), name);
  }

  lemma SubresourceKey(resource: string, ns: string, name: string, sub: string)
    requires resource != "" && ns != "" && name != "" && sub != ""
    ensures Build(KeyBuilder(resource, ns, false), [name, sub]) == Front(resource) + (ns + "/" + (name + "/" + sub))
  {
    assert [resource, ns] + [name, sub] == [resource, ns, name, sub];
    JoinFour(ROOT, resource, ns, name, sub);
    JoinOne(ROOT, resource);
    JoinOne(ROOT + "/" + resource, ns);
    JoinOne(ROOT + "/" + resource + "/" + ns, name);
    JoinOne(ROOT + "/" + resource + "/" + ns + "/" + name, sub);
  }

  lemma SameFront(front: string, x: string, y: string)
    ensures front + x <= front + y <==> x <= y
  {
    if front + x <= front + y {
      assert x == (front + x)[|front|..] && y == (front + y)[|front|..];
      assert forall i :: 0 <= i < |x| ==> x[i] == (front + x)[|front| + i] == (front + y)[|front| + i] == y[i];
    }
  }

  lemma NoSeparatorNoPrefix(a: string, b: string)
    requires '/' !in b
    ensures !(a + "/" <= b)
  {
    assert (a + "/")[|a|] == '/';
  }

  lemma PrefixBeforeSeparator(name: string, other: string, sub: string)
    requires '/' !in name
    ensures name <= other + "/" + sub <==> name <= other
  {
    var t := other + "/" + sub;
    assert t[|other|] == '/' && t[..|other|] == other;
  }

  /** Listing a namespace finds a resource of the same type exactly when it is in that namespace. */
  lemma NamespaceIsolation(resource: string, ns: string, other: string, name: string)
    requires resource != "" && ns != "" && name != ""
    requires Component(ns) && Component(other) && Component(name)
    ensures Build(KeyBuilder(resource, ns, false), []) <= Build(KeyBuilder(resource, other, false), [name]) <==> ns == other
  {
    ListingKey(resource, ns);
    ResourceKey(resource, other, name, false);
    var y := if other == "" then name else other + "/" + name;
    assert Front(resource) + y + "" == Front(resource) + y;
    SameFront(Front(resource), ns + "/" + "", y);
    if other == "" {
      assert ns + "/" + "" == ns + "/";
      NoSeparatorNoPrefix(ns, name);
    } else {
      PrefixComponent(ns, other, "", name);
    }
  }

  /** With an exact match, listing a resource's sub-resources finds exactly its own. */
  lemma ExactMatchIsolation(resource: string, ns: string, name: string, otherNs: string, other: string, sub: string)
    requires resource != "" && ns != "" && name != "" && otherNs != "" && other != "" && sub != ""
    requires Component(ns) && Component(name) && Component(otherNs) && Component(other) && Component(sub)
    ensures Build(KeyBuilder(resource, ns, true), [name]) <= Build(KeyBuilder(resource, otherNs, false), [other, sub])
      <==> ns == otherNs && name == other
  {
    ResourceKey(resource, ns, name, true);
    SubresourceKey(resource, otherNs, other, sub);
    assert Front(resource) + (ns + "/" + name) + "/" == Front(resource) + (ns + "/" + (name + "/" + ""));
    SameFront(Front(resource), ns + "/" + (name + "/" + ""), otherNs + "/" + (other + "/" + sub));
    PrefixComponent(ns, otherNs, name + "/" + "", other + "/" + sub);
    PrefixComponent(name, other, "", sub);
  }

  /** Without it, the sub-resources of every resource whose name merely starts the same turn up. */
  lemma InexactMatchLeaks(resource: string, ns: string, name: string, otherNs: string, other: string, sub: string)
    requires resource != "" && ns != "" && name != "" && otherNs != "" && other != "" && sub != ""
    requires Component(ns) && Component(name) && Component(otherNs) && Component(other) && Component(sub)
    ensures Build(KeyBuilder(resource, ns, false), [name]) <= Build(KeyBuilder(resource, otherNs, false), [other, sub])
      <==> ns == otherNs && name <= other
  {
    ResourceKey(resource, ns, name, false);
    SubresourceKey(resource, otherNs, other, sub);
    assert Front(resource) + (ns + "/" + name) + "" == Front(resource) + (ns + "/" + name);
    SameFront(Front(resource), ns + "/" + name, otherNs + "/" + (other + "/" + sub));
    PrefixComponent(ns, otherNs, name, other + "/" + sub);
    PrefixBeforeSeparator(name, other, sub);
  }

  /** Without a namespace everything of the type is found, whatever its namespace, but also what
      belongs to another type whose name merely starts the same; with an exact match only the type. */
  lemma AllNamespacesListed(resource: string, other: string, ns: string, name: string)
    requires resource != "" && other != "" && name != ""
    requires Component(resource) && Component(other) && Component(ns) && Component(name)
    ensures Build(KeyBuilder(resource, "", false), []) <= Build(KeyBuilder(other, ns, false), [name]) <==> resource <= other
    ensures Build(KeyBuilder(resource, "", true), []) <= Build(KeyBuilder(other, ns, false), [name]) <==> resource == other
  {
    TypeKey(resource, false);
    TypeKey(resource, true);
    ResourceKey(other, ns, name, false);
    hide Build, Join;
    var tail := if ns == "" then name else ns + "/" + name;
    assert Front(other) + tail + "" == (ROOT + "/") + (other + "/" + tail);
    assert ROOT + "/" + resource + "" == (ROOT + "/") + resource;
    assert ROOT + "/" + resource + "/" == (ROOT + "/") + (resource + "/" + "");
    SameFront(ROOT + "/", resource, other + "/" + tail);
    SameFront(ROOT + "/", resource + "/" + "", other + "/" + tail);
    PrefixBeforeSeparator(resource, other, tail);
    PrefixComponent(resource, other, "", tail);
  }

  lemma TypeKey(resource: string, exact: bool)
    requires resource != ""
    ensures Build(KeyBuilder(resource, "", exact), []) == ROOT + "/" + resource + (if exact then "/" else "")
  {
    assert [resource, ""] + [] == [resource, ""];
    JoinTwo(ROOT, resource, "");
    JoinOne(ROOT, resource);
    JoinOne(ROOT + "/" + resource, "");
  }

  /** Every subscription of every namespace has a ring of its own. */
  lemma RingsApart(ns: string, sub: string, otherNs: string, other: string)
    requires ns != "" && otherNs != ""
    requires Component(ns) && Component(sub) && Component(otherNs) && Component(other)
    ensures RingPath(ns, sub) == RingPath(otherNs, other) <==> ns == otherNs && sub == other
  {
    RoundTrip(SplitKey("sensu.io", "rings", ns, sub));
    RoundTrip(SplitKey("sensu.io", "rings", otherNs, other));
  }

  // ---- Printing and parsing ----

  /** The printed form, when the name has a namespace and the namespace a resource type. */
  lemma PrintNested(k: SplitKey)
    requires k.resource != "" && k.namespace != ""
    ensures Print(k) == ROOT + "/" + (k.resource + "/" + (k.namespace + "/" + k.name))
  {
    assert [k.resource, k.namespace] + [k.name] == [k.resource, k.namespace, k.name];
    JoinThree(ROOT, k.resource, k.namespace, k.name);
    JoinOne(ROOT, k.resource);
    JoinOne(ROOT + "/" + k.resource, k.namespace);
    JoinOne(ROOT + "/" + k.resource + "/" + k.namespace, k.name);
  }

  lemma RootSplits(s: string)
    ensures Split(ROOT + "/" + s) == ["", "sensu.io"] + Split(s)
  {
    assert ROOT + "/" + s == "" + "/" + ("sensu.io" + "/" + s);
    SplitJoin("", "sensu.io" + "/" + s);
    SplitJoin("sensu.io", s);
  }

  /** A key whose parts are all there, or missing only from the end, comes back as printed. */
  lemma RoundTrip(k: SplitKey)
    requires k.root == "sensu.io" && k.resource != "" && k.namespace != ""
    requires Component(k.resource) && Component(k.namespace) && Component(k.name)
    ensures Parse(Print(k)) == k
  {
    PrintNested(k);
    RootSplits(k.resource + "/" + (k.namespace + "/" + k.name));
    SplitJoin(k.resource, k.namespace + "/" + k.name);
    SplitJoin(k.namespace, k.name);
    SplitComponent(k.name);
  }

  lemma PrintFlat(k: SplitKey)
    requires k.resource != "" && k.namespace == ""
    ensures Print(k) == ROOT + "/" + (if k.name == "" then k.resource else k.resource + "/" + k.name)
  {
    assert [k.resource, ""] + [k.name] == [k.resource, "", k.name];
    JoinThree(ROOT, k.resource, "", k.name);
    JoinOne(ROOT, k.resource);
    JoinOne(ROOT + "/" + k.resource, "");
    JoinOne(ROOT + "/" + k.resource, k.name);
    hide Join;
    assert k.name != "" ==> ROOT + "/" + k.resource + "/" + k.name == ROOT + "/" + (k.resource + "/" + k.name);
  }

  lemma FlatRoundTrip(k: SplitKey)
    requires k.root == "sensu.io" && k.resource != "" && k.namespace == ""
    requires Component(k.resource) && Component(k.name)
    ensures Parse(Print(k)) == SplitKey("sensu.io", k.resource, k.name, "")
  {
    PrintFlat(k);
    hide Print, Join;
    if k.name == "" {
      RootSplits(k.resource);
      SplitComponent(k.resource);
    } else {
      RootSplits(k.resource + "/" + k.name);
      SplitJoin(k.resource, k.name);
      SplitComponent(k.name);
    }
  }

  /** One separator in front makes no difference. */
  lemma LeadingSeparator(key: string)
    requires key == "" || key[0] != '/'
    ensures Parse("/" + key) == Parse(key)
  {
    assert ("/" + key)[1..] == key;
    assert Split("/" + key) == [""] + Split(key);
  }

  /** For keys of a resource type under the root: parsing undoes printing if and only if a name
      comes with a namespace; without one, the name is read back as the namespace. */
  lemma RoundTripExact(k: SplitKey)
    requires k.root == "sensu.io" && k.resource != ""
    requires Component(k.resource) && Component(k.namespace) && Component(k.name)
    ensures Parse(Print(k)) == k <==> k.namespace != "" || k.name == ""
  {
    if k.namespace != "" { RoundTrip(k); } else { FlatRoundTrip(k); }
  }
}
