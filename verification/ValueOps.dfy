/** json_equal and json_deep_copy on the value graph (jansson-2.3/src/value.c:250-300, 548-598, 836-924). */
module ValueOps {
  import opened Bytes
  import opened JsonValue
  import opened ValueGraph
  import opened Dumpers

  /** Unfolding depends on nothing outside a closed part of the heap. */
  lemma {:induction false} UnfoldLocal(g: Graph, open: set<Node>, g': Graph, open': set<Node>, n: Node)
    requires Closed(g) && Closed(g') && n in g
    requires forall m :: m in g ==> m in g' && g'[m] == g[m]
    requires open * g.Keys == open' * g.Keys
    ensures Unfold(g, open, n) == Unfold(g', open', n)
    decreases g.Keys - open
  {
    assert n in open <==> n in open * g.Keys;
    assert n in open' <==> n in open' * g.Keys;
    if g[n].IsContainer() && n !in open {
      assert (open + {n}) * g.Keys == open * g.Keys + {n} == open' * g.Keys + {n} == (open' + {n}) * g.Keys;
      var ks := Kids(g[n]);
      assert Within(ks, g);
      forall i | 0 <= i < |ks|
        ensures Unfold(g, open + {n}, ks[i]) == Unfold(g', open' + {n}, ks[i])
      {
        UnfoldLocal(g, open + {n}, g', open' + {n}, ks[i]);
      }
      assert Within(ks, g');
      SameUnfolds(g, open + {n}, g', open' + {n}, ks);
    }
  }

  lemma SameUnfolds(g: Graph, open: set<Node>, g': Graph, open': set<Node>, ns: seq<Node>)
    requires Closed(g) && Closed(g') && Within(ns, g) && Within(ns, g')
    requires forall i :: 0 <= i < |ns| ==> Unfold(g, open, ns[i]) == Unfold(g', open', ns[i])
    ensures UnfoldAll(g, open, ns) == UnfoldAll(g', open', ns)
  {
    hide Unfold;
    var a, b := UnfoldAll(g, open, ns), UnfoldAll(g', open', ns);
    if a.Some? {
      forall i | 0 <= i < |ns|
        ensures Unfold(g', open', ns[i]).Some?
      {
      }
      assert a.value == b.value;
    }
  }

  /** Fewer containers under way never hurt. */
  lemma {:induction false} UnfoldShrink(g: Graph, open: set<Node>, less: set<Node>, n: Node)
    requires Closed(g) && n in g && less <= open && Unfold(g, open, n).Some?
    ensures Unfold(g, less, n) == Unfold(g, open, n)
    decreases g.Keys - open
  {
    if g[n].IsContainer() {
      var ks := Kids(g[n]);
      assert Within(ks, g);
      forall i | 0 <= i < |ks|
        ensures Unfold(g, less + {n}, ks[i]) == Unfold(g, open + {n}, ks[i])
      {
        UnfoldsAt(g, open + {n}, ks, i);
        UnfoldShrink(g, open + {n}, less + {n}, ks[i]);
      }
      SameUnfolds(g, less + {n}, g, open + {n}, ks);
    }
  }

  ghost function TreeAt(g: Graph, n: Node): Tree
    requires Closed(g) && n in g && Unfold(g, {}, n).Some?
  {
    Unfold(g, {}, n).value
  }

  /** The trees of the kids are the parts of the tree. */
  lemma KidTrees(g: Graph, n: Node)
    requires Closed(g) && n in g && Unfold(g, {}, n).Some?
    ensures Within(Kids(g[n]), g)
    ensures forall i :: 0 <= i < |Kids(g[n])| ==> Unfold(g, {}, Kids(g[n])[i]).Some?
    ensures g[n].PArray? ==> var t := TreeAt(g, n);
      t.Array? && |t.items| == |g[n].items| && forall i :: 0 <= i < |t.items| ==> t.items[i] == TreeAt(g, g[n].items[i])
    ensures g[n].PObject? ==> var t := TreeAt(g, n); var es := g[n].entries;
      t.Object? && |t.members| == |es|
      && forall i :: 0 <= i < |es| ==>
        (t.members[i].key == es[i].key && es[i].value in g && Unfold(g, {}, es[i].value).Some?
        && t.members[i].value == TreeAt(g, es[i].value))
  {
    var ks := Kids(g[n]);
    assert Within(ks, g);
    if g[n].IsContainer() {
      forall i | 0 <= i < |ks|
        ensures Unfold(g, {}, ks[i]).Some?
        ensures Unfold(g, {}, ks[i]) == Some(UnfoldAll(g, {} + {n}, ks).value[i])
      {
        UnfoldsAt(g, {} + {n}, ks, i);
        UnfoldShrink(g, {} + {n}, {}, ks[i]);
      }
    }
  }

  // ---- json_equal ----

  /**
   * json_equal: the types, the sizes, and then the elements in step or the members by one scan over the keys
   * of the first. It decides whether the two values mean the same.
   */
  method Equal(a: Option<Node>, b: Option<Node>, ghost nodes: set<Node>, ghost g: Graph) returns (eq: bool)
    requires g == Snapshot(nodes) && Closed(g) && Keyed(g)
    requires a.Some? ==> a.value in g && Unfold(g, {}, a.value).Some?
    requires b.Some? ==> b.value in g && Unfold(g, {}, b.value).Some?
    ensures eq <==> a.Some? && b.Some? && Meaning(TreeAt(g, a.value)) == Meaning(TreeAt(g, b.value))
    decreases if a.Some? then TreeAt(g, a.value) else Null, 1
  {
    hide Unfold, Meanings, MapOf;
    if a == None || b == None {
      return false;
    }
    var m, n := a.value, b.value;
    SimpleMeaning(g, m);
    SimpleMeaning(g, n);
    if !SameType(m.payload, n.payload) {
      return false;
    }
    // The nodes for true, false and null are singletons: for them the same type is the same node.
    if m == n || m.payload.IsSimple() {
      return true;
    }
    match m.payload
    case PObject(es) => eq := EqualObjects(m, n, nodes, g);
    case PArray(items) => eq := EqualArrays(m, n, nodes, g);
    case PText(s) => eq := s == n.payload.s;
    case PInteger(i) => eq := i == n.payload.i;
  }

  predicate SameType(p: Payload, q: Payload) {
    match p
    case PNull => q.PNull?
    case PTrue => q.PTrue?
    case PFalse => q.PFalse?
    case PInteger(_) => q.PInteger?
    case PText(_) => q.PText?
    case PArray(_) => q.PArray?
    case PObject(_) => q.PObject?
  }

  /** The type of a node shows in its meaning, and is all there is to a leaf. */
  lemma SimpleMeaning(g: Graph, n: Node)
    requires Closed(g) && n in g && Unfold(g, {}, n).Some?
    ensures match g[n]
      case PNull => Meaning(TreeAt(g, n)) == JNull
      case PTrue => Meaning(TreeAt(g, n)) == JTrue
      case PFalse => Meaning(TreeAt(g, n)) == JFalse
      case PInteger(i) => Meaning(TreeAt(g, n)) == JInt(i)
      case PText(s) => Meaning(TreeAt(g, n)) == JText(s)
      case PArray(_) => Meaning(TreeAt(g, n)).JArray?
      case PObject(_) => Meaning(TreeAt(g, n)).JObject?
  {
  }

  method EqualArrays(m: Node, n: Node, ghost nodes: set<Node>, ghost g: Graph) returns (eq: bool)
    requires g == Snapshot(nodes) && Closed(g) && Keyed(g)
    requires m in g && n in g && Unfold(g, {}, m).Some? && Unfold(g, {}, n).Some?
    requires m.payload.PArray? && n.payload.PArray?
    ensures eq <==> Meaning(TreeAt(g, m)) == Meaning(TreeAt(g, n))
    decreases TreeAt(g, m), 0
  {
    hide Unfold, Meanings;
    KidTrees(g, m);
    KidTrees(g, n);
    ArrayMeaning(g, m);
    ArrayMeaning(g, n);
    var size := |m.payload.items|;
    ghost var ms, ns := TreeAt(g, m).items, TreeAt(g, n).items;
    if size != |n.payload.items| {
      return false;
    }
    var i := 0;
    while i < size
      invariant 0 <= i <= size
      invariant forall k :: 0 <= k < i ==> Meaning(ms[k]) == Meaning(ns[k])
    {
      var same := Equal(Some(m.payload.items[i]), Some(n.payload.items[i]), nodes, g);
      if !same {
        assert Meanings(ms)[i] != Meanings(ns)[i];
        return false;
      }
      i := i + 1;
    }
    assert Meanings(ms) == Meanings(ns);
    return true;
  }

  lemma ArrayMeaning(g: Graph, n: Node)
    requires Closed(g) && n in g && Unfold(g, {}, n).Some? && g[n].PArray?
    ensures TreeAt(g, n).Array? && Meaning(TreeAt(g, n)) == JArray(Meanings(TreeAt(g, n).items))
  {
    hide Meaning, Meanings;
    KidTrees(g, n);
    ArrayMeans(TreeAt(g, n).items);
  }

  lemma ArrayMeans(ts: seq<Tree>)
    ensures Meaning(Array(ts)) == JArray(Meanings(ts))
  {
  }

  method EqualObjects(m: Node, n: Node, ghost nodes: set<Node>, ghost g: Graph) returns (eq: bool)
    requires g == Snapshot(nodes) && Closed(g) && Keyed(g)
    requires m in g && n in g && Unfold(g, {}, m).Some? && Unfold(g, {}, n).Some?
    requires m.payload.PObject? && n.payload.PObject?
    ensures eq <==> Meaning(TreeAt(g, m)) == Meaning(TreeAt(g, n))
    decreases TreeAt(g, m), 0, 1
  {
    hide Unfold, MapOf, Meaning, TreeAt, Kids, DistinctEntries;
    ghost var p, q := MembersAt(g, m), MembersAt(g, n);
    MembersCount(g, m);
    MembersCount(g, n);
    var es, fs := m.payload.entries, n.payload.entries;
    if |es| != |fs| {
      return false;
    }
    var i := 0;
    while i < |es|
      invariant 0 <= i <= |es|
      invariant forall k :: 0 <= k < i ==> es[k].key in q && es[k].key in p && q[es[k].key] == p[es[k].key]
    {
      var same := EqualMember(m, n, i, nodes, g);
      if !same {
        return false;
      }
      i := i + 1;
    }
    SameSizeSubmap(p, q);
    return true;
  }

  /** One turn of the scan: the value the other object has for the key is there and equal. */
  method EqualMember(m: Node, n: Node, i: nat, ghost nodes: set<Node>, ghost g: Graph) returns (same: bool)
    requires g == Snapshot(nodes) && Closed(g) && Keyed(g)
    requires m in g && n in g && Unfold(g, {}, m).Some? && Unfold(g, {}, n).Some?
    requires m.payload.PObject? && n.payload.PObject? && i < |m.payload.entries|
    ensures var p, q, key := MembersAt(g, m), MembersAt(g, n), m.payload.entries[i].key;
      key in p && (same <==> key in q && q[key] == p[key])
    decreases TreeAt(g, m), 0, 0
  {
    hide Unfold, MapOf, Meaning, TreeAt, Kids, DistinctEntries;
    var e := m.payload.entries[i];
    MemberAt(g, m, i);
    MissingKey(g, n, e.key);
    same := Equal(Some(e.value), Lookup(n.payload.entries, e.key), nodes, g);
  }

  /** The members an object node means. */
  ghost function MembersAt(g: Graph, n: Node): map<bytes, Json>
    requires Closed(g) && n in g && Unfold(g, {}, n).Some? && g[n].PObject?
  {
    MapOf(TreeAt(g, n).members)
  }

  lemma MembersCount(g: Graph, n: Node)
    requires Closed(g) && Keyed(g) && n in g && Unfold(g, {}, n).Some? && g[n].PObject?
    ensures var p, es := MembersAt(g, n), g[n].entries;
      |p| == |es| && forall k :: k in p ==> exists i :: 0 <= i < |es| && es[i].key == k
    ensures Meaning(TreeAt(g, n)) == JObject(MembersAt(g, n))
  {
    hide Unfold, MapOf, Meaning, TreeAt, Kids;
    ObjectMeaning(g, n);
  }

  lemma MemberAt(g: Graph, n: Node, i: nat)
    requires Closed(g) && Keyed(g) && n in g && Unfold(g, {}, n).Some? && g[n].PObject? && i < |g[n].entries|
    ensures var e := g[n].entries[i];
      && e.value in g && Unfold(g, {}, e.value).Some?
      && e.key in MembersAt(g, n) && MembersAt(g, n)[e.key] == Meaning(TreeAt(g, e.value))
      && TreeAt(g, e.value) < TreeAt(g, n)
  {
    hide Unfold, MapOf, Meaning, TreeAt, Kids;
    ObjectMeaning(g, n);
    KidTrees(g, n);
    var t := TreeAt(g, n);
    assert t.members[i].value == TreeAt(g, g[n].entries[i].value);
  }

  /** An object means the map of its entries. */
  lemma ObjectMeaning(g: Graph, n: Node)
    requires Closed(g) && Keyed(g) && n in g && Unfold(g, {}, n).Some? && g[n].PObject?
    ensures TreeAt(g, n).Object? && Meaning(TreeAt(g, n)) == JObject(MapOf(TreeAt(g, n).members))
    ensures var es := g[n].entries; var p := MapOf(TreeAt(g, n).members);
      && |p| == |es|
      && (forall i :: 0 <= i < |es| ==>
        (es[i].key in p && es[i].value in g && Unfold(g, {}, es[i].value).Some?
        && p[es[i].key] == Meaning(TreeAt(g, es[i].value))))
      && (forall k :: k in p ==> exists i :: 0 <= i < |es| && es[i].key == k)
  {
    hide Meaning;
    KidTrees(g, n);
    var ms, es := TreeAt(g, n).members, g[n].entries;
    assert DistinctKeys(ms);
    MapOfDistinct(ms);
    forall k | k in MapOf(ms)
      ensures exists i :: 0 <= i < |es| && es[i].key == k
    {
      assert HasKey(ms, k);
      var i :| 0 <= i < |ms| && ms[i].key == k;
      assert es[i].key == k;
    }
    ObjectMeans(ms);
  }

  lemma ObjectMeans(ms: seq<Member>)
    ensures Meaning(Object(ms)) == JObject(MapOf(ms))
  {
  }

  lemma MissingKey(g: Graph, n: Node, key: bytes)
    requires Closed(g) && Keyed(g) && n in g && Unfold(g, {}, n).Some? && g[n].PObject?
    ensures var r := Lookup(g[n].entries, key);
      var p := MembersAt(g, n);
      && (r.Some? <==> key in p)
      && (r.Some? ==> r.value in g && Unfold(g, {}, r.value).Some? && Meaning(TreeAt(g, r.value)) == p[key])
  {
    hide Unfold, MapOf, Meaning;
    ObjectMeaning(g, n);
  }

  /** A map inside another of the same size is that map. */
  lemma SameSizeSubmap(p: map<bytes, Json>, q: map<bytes, Json>)
    requires |p| == |q| && forall k :: k in p ==> k in q && q[k] == p[k]
    ensures p == q
  {
    assert |p.Keys| == |q.Keys|;
    SubsetSameSize(p.Keys, q.Keys);
  }

  lemma SubsetSameSize(a: set<bytes>, b: set<bytes>)
    requires a <= b && |a| == |b|
    ensures a == b
  {
    if a != b {
      var x :| x in b && x !in a;
      assert |b - {x}| == |b| - 1;
      SubsetSize(a, b - {x});
    }
  }

  lemma {:induction false} SubsetSize(a: set<bytes>, b: set<bytes>)
    requires a <= b
    ensures |a| <= |b|
  {
    if a != {} {
      var x :| x in a;
      SubsetSize(a - {x}, b - {x});
    }
  }

  // ---- json_deep_copy ----

  /** `c` is a faithful copy of `n`: it means the same and is made of new nodes and simple values only. */
  ghost predicate Copies(c: Node, made: set<Node>, nodes: set<Node>, v: Json)
    reads nodes, made
  {
    var g' := Snapshot(nodes + made);
    && Sound(made, nodes)
    && c in g'
    && (c in made || c.payload.IsSimple())
    && Unfold(g', {}, c).Some?
    && Meaning(TreeAt(g', c)) == v
  }

  /** The new nodes extend the heap to a closed one, and hold nothing of the old one but simple values. */
  ghost predicate Sound(made: set<Node>, nodes: set<Node>)
    reads nodes, made
  {
    var g' := Snapshot(nodes + made);
    && Closed(g') && Keyed(g')
    && forall m, k :: m in made && k in Kids(m.payload) ==> k in made || (k in nodes && k.payload.IsSimple())
  }

  /** Two separately made extensions form one. */
  lemma JoinSound(made1: set<Node>, made2: set<Node>, nodes: set<Node>)
    requires Sound(made1, nodes) && Sound(made2, nodes)
    ensures Sound(made1 + made2, nodes)
  {
    hide Kids, DistinctEntries;
    var g1, g2 := Snapshot(nodes + made1), Snapshot(nodes + made2);
    var g := Snapshot(nodes + (made1 + made2));
    forall n | n in g
      ensures Within(Kids(g[n]), g)
    {
      if n in g1 {
        assert g[n] == g1[n] && Within(Kids(g1[n]), g1);
      } else {
        assert n in g2 && g[n] == g2[n] && Within(Kids(g2[n]), g2);
      }
    }
    forall n | n in g && g[n].PObject?
      ensures DistinctEntries(g[n].entries)
    {
      if n in g1 {
        assert g[n] == g1[n];
      } else {
        assert n in g2 && g[n] == g2[n];
      }
    }
  }

  /** What a node means does not change when the heap grows. */
  lemma GrowKeepsMeaning(c: Node, made: set<Node>, more: set<Node>, nodes: set<Node>)
    requires Sound(made, nodes) && Sound(made + more, nodes)
    requires c in nodes + made && Unfold(Snapshot(nodes + made), {}, c).Some?
    ensures Unfold(Snapshot(nodes + (made + more)), {}, c) == Unfold(Snapshot(nodes + made), {}, c)
  {
    hide Unfold, Kids;
    UnfoldLocal(Snapshot(nodes + made), {}, Snapshot(nodes + (made + more)), {}, c);
  }

  method DeepCopy(n: Node, ghost nodes: set<Node>, ghost g: Graph) returns (c: Node, ghost made: set<Node>)
    requires g == Snapshot(nodes) && Closed(g) && Keyed(g) && n in g && Unfold(g, {}, n).Some?
    ensures fresh(made) && Copies(c, made, nodes, Meaning(TreeAt(g, n)))
    ensures n.payload.IsSimple() ==> c == n
    ensures !n.payload.IsSimple() ==> c in made
    decreases TreeAt(g, n), 1
  {
    hide Unfold, Meaning;
    if n.payload.PObject? {
      c, made := DeepCopyObject(n, nodes, g);
    } else if n.payload.PArray? {
      c, made := DeepCopyArray(n, nodes, g);
    } else if n.payload.IsSimple() {
      c, made := n, {};
      assert nodes + made == nodes;
    } else {
      c := new Node(n.payload);
      made := {c};
      LeafCopied(n, c, nodes);
    }
  }

  lemma LeafCopied(n: Node, c: Node, nodes: set<Node>)
    requires Closed(Snapshot(nodes)) && Keyed(Snapshot(nodes)) && n in nodes && c !in nodes
    requires c.payload == n.payload && !c.payload.IsContainer()
    ensures Sound({c}, nodes) && Unfold(Snapshot(nodes + {c}), {}, c) == Unfold(Snapshot(nodes), {}, n)
  {
    var g, g' := Snapshot(nodes), Snapshot(nodes + {c});
    forall m | m in g'
      ensures Within(Kids(g'[m]), g')
      ensures g'[m].PObject? ==> DistinctEntries(g'[m].entries)
    {
      if m in g {
        assert g'[m] == g[m] && Within(Kids(g[m]), g);
      }
    }
  }

  // ---- copying an array ----

  ghost predicate CopiesAll(cs: seq<Node>, made: set<Node>, nodes: set<Node>, vs: seq<Json>)
    requires |cs| <= |vs|
    reads nodes, made
  {
    Sound(made, nodes) && forall k :: 0 <= k < |cs| ==> Copies(cs[k], made, nodes, vs[k])
  }

  lemma GrowCopies(c: Node, made: set<Node>, more: set<Node>, nodes: set<Node>, v: Json)
    requires Copies(c, made, nodes, v) && Sound(made + more, nodes)
    ensures Copies(c, made + more, nodes, v)
  {
    hide Unfold, Kids, Meaning;
    GrowKeepsMeaning(c, made, more, nodes);
    assert c in nodes + (made + more);
  }

  /** One more copy joins those made before. */
  lemma AppendCopy(cs: seq<Node>, made: set<Node>, x: Node, more: set<Node>, nodes: set<Node>, vs: seq<Json>)
    requires |cs| < |vs| && CopiesAll(cs, made, nodes, vs) && Copies(x, more, nodes, vs[|cs|])
    ensures CopiesAll(cs + [x], made + more, nodes, vs)
  {
    hide Copies, Sound;
    CopySound(x, more, nodes, vs[|cs|]);
    JoinSound(made, more, nodes);
    forall k | 0 <= k < |cs|
      ensures Copies(cs[k], made + more, nodes, vs[k])
    {
      GrowCopies(cs[k], made, more, nodes, vs[k]);
    }
    assert more + made == made + more;
    GrowCopies(x, more, made, nodes, vs[|cs|]);
  }

  lemma CopySound(c: Node, made: set<Node>, nodes: set<Node>, v: Json)
    requires Copies(c, made, nodes, v)
    ensures Sound(made, nodes)
  {
  }

  lemma NothingMade(nodes: set<Node>)
    requires Closed(Snapshot(nodes)) && Keyed(Snapshot(nodes))
    ensures Sound({}, nodes)
  {
    assert nodes + {} == nodes;
  }

  method DeepCopyArray(n: Node, ghost nodes: set<Node>, ghost g: Graph) returns (c: Node, ghost made: set<Node>)
    requires g == Snapshot(nodes) && Closed(g) && Keyed(g) && n in g && Unfold(g, {}, n).Some?
    requires n.payload.PArray?
    ensures fresh(made) && c in made && Copies(c, made, nodes, Meaning(TreeAt(g, n)))
    decreases TreeAt(g, n), 0
  {
    hide Unfold, Meaning, Copies, Sound, Closed, Keyed, TreeAt, Meanings;
    ArrayItems(g, n);
    ghost var vs := Meanings(TreeAt(g, n).items);
    NothingMade(nodes);
    var items := n.payload.items;
    c := new Node(PArray([]));
    made := {};
    var i := 0;
    while i < |items|
      invariant 0 <= i <= |items| == |vs|
      invariant fresh(c) && fresh(made) && c !in made && c !in nodes
      invariant c.payload.PArray? && |c.payload.items| == i
      invariant CopiesAll(c.payload.items, made, nodes, vs)
      modifies c
    {
      ghost var cs := c.payload.items;
      var x, more := DeepCopy(items[i], nodes, g);
      AppendCopy(cs, made, x, more, nodes, vs);
      made := made + more;
      c.payload := PArray(c.payload.items + [x]);
      i := i + 1;
    }
    SealArray(c, c.payload.items, made, nodes, vs);
    made := made + {c};
  }

  lemma ArrayItems(g: Graph, n: Node)
    requires Closed(g) && n in g && Unfold(g, {}, n).Some? && g[n].PArray?
    ensures TreeAt(g, n).Array?
    ensures var vs := Meanings(TreeAt(g, n).items); var items := g[n].items;
      && Meaning(TreeAt(g, n)) == JArray(vs) && |vs| == |items|
      && forall i :: 0 <= i < |items| ==>
        (items[i] in g && Unfold(g, {}, items[i]).Some? && TreeAt(g, items[i]) < TreeAt(g, n)
        && Meaning(TreeAt(g, items[i])) == vs[i])
  {
    hide Unfold, Meaning, TreeAt;
    KidTrees(g, n);
    ArrayMeaning(g, n);
    var t := TreeAt(g, n);
    forall i | 0 <= i < |t.items|
      ensures t.items[i] < t
    {
    }
  }

  /** Giving the new node its elements keeps the heap sound, and the elements mean what they meant. */
  lemma SealKids(c: Node, kids: seq<Node>, made: set<Node>, nodes: set<Node>)
    requires c !in nodes && c !in made && Sound(made, nodes) && Kids(c.payload) == kids
    requires c.payload.PObject? ==> DistinctEntries(c.payload.entries)
    requires forall i :: 0 <= i < |kids| ==>
      (kids[i] in nodes + made && (kids[i] in made || kids[i].payload.IsSimple())
      && Unfold(Snapshot(nodes + made), {}, kids[i]).Some?)
    ensures Sound(made + {c}, nodes)
    ensures var g, g' := Snapshot(nodes + made), Snapshot(nodes + (made + {c}));
      forall i :: 0 <= i < |kids| ==>
        Unfold(g', {}, kids[i]) == Unfold(g', {c}, kids[i]) == Unfold(g, {}, kids[i])
  {
    hide Unfold, Kids, DistinctEntries;
    var g, g' := Snapshot(nodes + made), Snapshot(nodes + (made + {c}));
    SealClosed(c, kids, made, nodes);
    forall i | 0 <= i < |kids|
      ensures Unfold(g', {}, kids[i]) == Unfold(g', {c}, kids[i]) == Unfold(g, {}, kids[i])
    {
      UnfoldLocal(g, {}, g', {}, kids[i]);
      UnfoldLocal(g, {}, g', {c}, kids[i]);
    }
  }

  lemma SealClosed(c: Node, kids: seq<Node>, made: set<Node>, nodes: set<Node>)
    requires c !in nodes && c !in made && Sound(made, nodes) && Kids(c.payload) == kids
    requires c.payload.PObject? ==> DistinctEntries(c.payload.entries)
    requires forall i :: 0 <= i < |kids| ==>
      kids[i] in nodes + made && (kids[i] in made || kids[i].payload.IsSimple())
    ensures Sound(made + {c}, nodes)
  {
    hide Kids, DistinctEntries;
    var g, g' := Snapshot(nodes + made), Snapshot(nodes + (made + {c}));
    forall m | m in g'
      ensures Within(Kids(g'[m]), g')
      ensures g'[m].PObject? ==> DistinctEntries(g'[m].entries)
    {
      if m != c {
        assert m in g && g'[m] == g[m] && Within(Kids(g[m]), g);
      }
    }
    forall m, k | m in made + {c} && k in Kids(m.payload)
      ensures k in made + {c} || (k in nodes && k.payload.IsSimple())
    {
      if m == c {
        var i :| 0 <= i < |kids| && kids[i] == k;
      }
    }
  }

  lemma SealArray(c: Node, items: seq<Node>, made: set<Node>, nodes: set<Node>, vs: seq<Json>)
    requires c !in nodes && c !in made && c.payload == PArray(items) && |items| == |vs|
    requires CopiesAll(items, made, nodes, vs)
    ensures Copies(c, made + {c}, nodes, JArray(vs))
  {
    hide Meaning;
    var g, g' := Snapshot(nodes + made), Snapshot(nodes + (made + {c}));
    SealKids(c, items, made, nodes);
    assert Closed(g') && Closed(g);
    assert Within(Kids(g'[c]), g');
    assert {} + {c} == {c};
    assert UnfoldAll(g', {c}, items).Some?;
    var t := TreeAt(g', c);
    assert t == Array(UnfoldAll(g', {c}, items).value);
    ArrayMeaning(g', c);
    forall i | 0 <= i < |vs|
      ensures Meaning(t.items[i]) == vs[i]
    {
      assert Copies(items[i], made, nodes, vs[i]);
    }
    MeaningsAre(t.items, vs);
  }

  lemma MeaningsAre(ts: seq<Tree>, vs: seq<Json>)
    requires |ts| == |vs| && forall i :: 0 <= i < |ts| ==> Meaning(ts[i]) == vs[i]
    ensures Meanings(ts) == vs
  {
    hide Meaning;
  }

  // ---- copying an object ----

  ghost predicate CopiesEntries(es: seq<Entry>, made: set<Node>, nodes: set<Node>, p: map<bytes, Json>)
    reads nodes, made
  {
    && Sound(made, nodes)
    && forall k :: 0 <= k < |es| ==> es[k].key in p && Copies(es[k].value, made, nodes, p[es[k].key])
  }

  /** The first `i` keys of `from` are the keys of `es`, numbered in the order they were added. */
  predicate Numbered(es: seq<Entry>, from: seq<Entry>, i: nat) {
    && |es| == i <= |from|
    && DistinctEntries(es)
    && forall k :: 0 <= k < |es| ==> es[k].serial < i && es[k].key == from[es[k].serial].key
  }

  lemma AddNumbered(es: seq<Entry>, from: seq<Entry>, i: nat, at: nat, x: Node)
    requires Numbered(es, from, i) && DistinctEntries(from) && i < |from| && at <= i
    ensures Numbered(es[..at] + [Entry(from[i].key, i, x)] + es[at..], from, i + 1)
  {
    var e := Entry(from[i].key, i, x);
    var r := es[..at] + [e] + es[at..];
    forall k | 0 <= k < |r|
      ensures r[k] == if k < at then es[k] else if k == at then e else es[k - 1]
    {
    }
  }

  lemma AddCopy(
        es: seq<Entry>, made: set<Node>, e: Entry, at: nat, more: set<Node>, nodes: set<Node>, p: map<bytes, Json>)
    requires at <= |es| && CopiesEntries(es, made, nodes, p)
    requires e.key in p && Copies(e.value, more, nodes, p[e.key])
    ensures CopiesEntries(es[..at] + [e] + es[at..], made + more, nodes, p)
  {
    hide Copies, Sound;
    var r := es[..at] + [e] + es[at..];
    CopySound(e.value, more, nodes, p[e.key]);
    JoinSound(made, more, nodes);
    forall k | 0 <= k < |r|
      ensures r[k].key in p && Copies(r[k].value, made + more, nodes, p[r[k].key])
    {
      if k == at {
        assert more + made == made + more;
        GrowCopies(e.value, more, made, nodes, p[e.key]);
      } else {
        var j := if k < at then k else k - 1;
        assert r[k] == es[j];
        GrowCopies(es[j].value, made, more, nodes, p[es[j].key]);
      }
    }
  }

  /** The copy is built by inserting the copied members one by one, wherever in the table their hashes put them. */
  method DeepCopyObject(n: Node, ghost nodes: set<Node>, ghost g: Graph) returns (c: Node, ghost made: set<Node>)
    requires g == Snapshot(nodes) && Closed(g) && Keyed(g) && n in g && Unfold(g, {}, n).Some?
    requires n.payload.PObject?
    ensures fresh(made) && c in made && Copies(c, made, nodes, Meaning(TreeAt(g, n)))
    decreases TreeAt(g, n), 0
  {
    hide Unfold, Meaning, Copies, Sound, Closed, TreeAt, MembersAt, Numbered, DistinctEntries;
    ghost var p := MembersAt(g, n);
    MembersCount(g, n);
    NothingMade(nodes);
    var es := n.payload.entries;
    c := new Node(PObject([]));
    made := {};
    var i := 0;
    NumberedNone(es);
    while i < |es|
      invariant 0 <= i <= |es|
      invariant fresh(c) && fresh(made) && c !in made && c !in nodes
      invariant c.payload.PObject? && Numbered(c.payload.entries, es, i)
      invariant CopiesEntries(c.payload.entries, made, nodes, p)
      modifies c
    {
      MemberAt(g, n, i);
      NumberedSize(c.payload.entries, es, i);
      var x, more := DeepCopy(es[i].value, nodes, g);
      var at: nat :| at <= i;
      AddNumbered(c.payload.entries, es, i, at, x);
      AddCopy(c.payload.entries, made, Entry(es[i].key, i, x), at, more, nodes, p);
      made := made + more;
      c.payload := PObject(c.payload.entries[..at] + [Entry(es[i].key, i, x)] + c.payload.entries[at..]);
      i := i + 1;
    }
    NumberedSize(c.payload.entries, es, i);
    SealObject(c, c.payload.entries, made, nodes, p);
    made := made + {c};
  }

  lemma NumberedNone(from: seq<Entry>)
    ensures Numbered([], from, 0)
  {
  }

  lemma NumberedSize(es: seq<Entry>, from: seq<Entry>, i: nat)
    requires Numbered(es, from, i)
    ensures |es| == i && DistinctEntries(es)
  {
  }

  lemma SealObject(c: Node, es: seq<Entry>, made: set<Node>, nodes: set<Node>, p: map<bytes, Json>)
    requires c !in nodes && c !in made && c.payload == PObject(es) && DistinctEntries(es) && |es| == |p|
    requires CopiesEntries(es, made, nodes, p)
    ensures Copies(c, made + {c}, nodes, JObject(p))
  {
    hide Meaning, DistinctEntries;
    var g, g' := Snapshot(nodes + made), Snapshot(nodes + (made + {c}));
    var kids := Values(es);
    SealKids(c, kids, made, nodes);
    assert Closed(g') && Closed(g) && Keyed(g');
    assert Within(Kids(g'[c]), g');
    assert {} + {c} == {c};
    assert UnfoldAll(g', {c}, kids).Some?;
    SealMeaning(c, es, made, nodes, p);
  }

  lemma SealMeaning(c: Node, es: seq<Entry>, made: set<Node>, nodes: set<Node>, p: map<bytes, Json>)
    requires CopiesEntries(es, made, nodes, p) && |es| == |p|
    requires var g, g' := Snapshot(nodes + made), Snapshot(nodes + (made + {c}));
      && Closed(g) && Closed(g') && Keyed(g') && c in g' && g'[c] == PObject(es) && Unfold(g', {}, c).Some?
      && forall i :: 0 <= i < |es| ==>
        es[i].value in g && es[i].value in g' && Unfold(g', {}, es[i].value) == Unfold(g, {}, es[i].value)
    ensures Meaning(TreeAt(Snapshot(nodes + (made + {c})), c)) == JObject(p)
  {
    hide Meaning, Sound, DistinctEntries, Unfold, MapOf;
    var g, g' := Snapshot(nodes + made), Snapshot(nodes + (made + {c}));
    ObjectMeaning(g', c);
    var q := MapOf(TreeAt(g', c).members);
    forall k | k in q
      ensures k in p && p[k] == q[k]
    {
      var i :| 0 <= i < |es| && es[i].key == k;
      assert Copies(es[i].value, made, nodes, p[k]);
    }
    SameSizeSubmap(q, p);
  }
}
