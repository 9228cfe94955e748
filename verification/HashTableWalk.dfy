/** Whole runs over a hash table: any sequence of operations, and iteration while other pairs are deleted. */
module HashTableWalk {
  import opened Bytes
  import opened HashTables

  // ---- any sequence of operations ----

  datatype Op =
    | SetOp(key: bytes, serial: nat, value: Handle)
    | DelOp(key: bytes)
    | ClearOp

  /** What an operation does to a plain map. */
  function Apply(m: map<bytes, Slot>, op: Op): map<bytes, Slot> {
    match op
    case SetOp(key, serial, value) => m[key := Slot(if key in m then m[key].serial else serial, value)]
    case DelOp(key) => m - {key}
    case ClearOp => map[]
  }

  function ApplyAll(ops: seq<Op>): map<bytes, Slot> {
    if ops == [] then map[] else Apply(ApplyAll(ops[..|ops| - 1]), ops[|ops| - 1])
  }

  /**
   * A table that has been through any sequence of operations still holds its invariant, and it looks up and
   * counts exactly what the plain map holds. Only keys are limited: C strings, and fewer of them than the
   * last prime.
   */
  method Run(ops: seq<Op>, probe: bytes) returns (t: HashTable, found: Option<Handle>)
    requires forall i :: 0 <= i < |ops| && !ops[i].ClearOp? ==> NulFree(ops[i].key)
    requires NulFree(probe) && |ops| < PRIMES[|PRIMES| - 1]
    ensures t.Valid() && t.contents == ApplyAll(ops) && t.size == |ApplyAll(ops)|
    ensures found == if probe in ApplyAll(ops) then Some(ApplyAll(ops)[probe].value) else None
  {
    hide HashTable.Valid, Apply;
    t := new HashTable();
    t.SizeCounts();
    var i := 0;
    while i < |ops|
      invariant 0 <= i <= |ops|
      invariant t.Valid() && t.contents == ApplyAll(ops[..i]) && t.size <= i
      invariant fresh(t) && fresh(t.list) && fresh(t.buckets) && fresh(Nodes(t.ring))
    {
      Step(t, ops[i]);
      assert ops[..i + 1][..i] == ops[..i];
      i := i + 1;
    }
    assert ops[..i] == ops;
    found := t.Get(probe);
    t.SizeCounts();
  }

  method Step(t: HashTable, op: Op)
    requires t.Valid() && t.size < PRIMES[|PRIMES| - 1]
    requires !op.ClearOp? ==> NulFree(op.key)
    modifies t, t.buckets, {t.list}`prev, {t.list}`next, Nodes(t.ring)
    ensures t.Valid() && t.contents == Apply(old(t.contents), op) && t.size <= old(t.size) + 1
    ensures (t.buckets == old(t.buckets) || fresh(t.buckets)) && fresh(Nodes(t.ring) - old(Nodes(t.ring)))
  {
    hide HashTable.Valid, Distinct, RemoveAt;
    t.SizeCounts();
    ghost var was := t.contents;
    match op
    case SetOp(key, serial, value) =>
      var dropped := t.Set(key, serial, value);
      t.SizeCounts();
      assert t.contents.Keys == was.Keys + {key};
    case DelOp(key) =>
      var ok, dropped := t.Del(key);
      t.SizeCounts();
    case ClearOp =>
      var dropped := t.Clear();
      t.SizeCounts();
  }

  // ---- iteration while pairs are deleted ----

  function Keys(ring: seq<Node>): (r: seq<bytes>)
    ensures |r| == |ring| && forall i :: 0 <= i < |r| ==> r[i] == ring[i].key
  {
    seq(|ring|, i requires 0 <= i < |ring| => ring[i].key)
  }

  predicate Once(keys: seq<bytes>) {
    forall i, j :: 0 <= i < j < |keys| ==> keys[i] != keys[j]
  }

  /** The keys that are not dropped, in their old order. */
  function Minus(keys: seq<bytes>, drop: set<bytes>): (r: seq<bytes>)
    ensures |r| <= |keys|
  {
    if keys == [] then []
    else if keys[0] in drop then Minus(keys[1..], drop)
    else [keys[0]] + Minus(keys[1..], drop)
  }

  function Elements(keys: seq<bytes>): set<bytes> {
    set k | k in keys
  }

  /** What the body of the loop wants deleted at turn `i`. */
  function Planned(plan: seq<seq<bytes>>, i: nat): set<bytes> {
    if i < |plan| then Elements(plan[i]) else {}
  }

  /** What a walk visits from turn `i` on, when `keys` are the keys it has not come to yet. */
  function Visits(keys: seq<bytes>, plan: seq<seq<bytes>>, i: nat): seq<bytes>
    decreases |keys|
  {
    if keys == [] then [] else [keys[0]] + Visits(Minus(keys[1..], Planned(plan, i)), plan, i + 1)
  }

  /** What it deletes: at each turn it comes to, whatever is planned but the current key. */
  function Gone(keys: seq<bytes>, plan: seq<seq<bytes>>, i: nat): set<bytes>
    decreases |keys|
  {
    if keys == [] then {}
    else (Planned(plan, i) - {keys[0]}) + Gone(Minus(keys[1..], Planned(plan, i)), plan, i + 1)
  }

  predicate Subsequence(a: seq<bytes>, b: seq<bytes>) {
    a == [] || (b != [] && ((a[0] == b[0] && Subsequence(a[1..], b[1..])) || Subsequence(a, b[1..])))
  }

  lemma {:induction false} MinusIn(keys: seq<bytes>, drop: set<bytes>, k: bytes)
    ensures k in Minus(keys, drop) <==> k in keys && k !in drop
  {
    if keys != [] {
      MinusIn(keys[1..], drop, k);
      assert k in keys <==> k == keys[0] || k in keys[1..];
    }
  }

  lemma {:induction false} MinusInOrder(a: seq<bytes>, keys: seq<bytes>, drop: set<bytes>)
    requires Subsequence(a, Minus(keys, drop))
    ensures Subsequence(a, keys)
    decreases |keys|
  {
    if a != [] && keys != [] {
      if keys[0] in drop {
        MinusInOrder(a, keys[1..], drop);
      } else {
        var kept := Minus(keys, drop);
        assert kept[1..] == Minus(keys[1..], drop);
        if a[0] == keys[0] && Subsequence(a[1..], kept[1..]) {
          MinusInOrder(a[1..], keys[1..], drop);
        } else {
          MinusInOrder(a, keys[1..], drop);
        }
      }
    }
  }

  /** A walk follows the order of the ring. */
  lemma {:induction false} VisitsInOrder(keys: seq<bytes>, plan: seq<seq<bytes>>, i: nat)
    ensures Subsequence(Visits(keys, plan, i), keys)
    decreases |keys|
  {
    if keys != [] {
      var later := Minus(keys[1..], Planned(plan, i));
      VisitsInOrder(later, plan, i + 1);
      MinusInOrder(Visits(later, plan, i + 1), keys[1..], Planned(plan, i));
    }
  }

  lemma {:induction false} SubsequenceIn(a: seq<bytes>, b: seq<bytes>, k: bytes)
    requires Subsequence(a, b) && k in a
    ensures k in b
    decreases |b|
  {
    if a[0] == b[0] && Subsequence(a[1..], b[1..]) {
      if k != a[0] {
        SubsequenceIn(a[1..], b[1..], k);
      }
    } else {
      SubsequenceIn(a, b[1..], k);
    }
  }

  lemma {:induction false} SubsequenceOnce(a: seq<bytes>, b: seq<bytes>)
    requires Subsequence(a, b) && Once(b)
    ensures Once(a)
    decreases |b|
  {
    if a != [] {
      assert Once(b[1..]);
      if a[0] == b[0] && Subsequence(a[1..], b[1..]) {
        SubsequenceOnce(a[1..], b[1..]);
        forall j | 0 < j < |a|
          ensures a[0] != a[j]
        {
          SubsequenceIn(a[1..], b[1..], a[1..][j - 1]);
        }
        assert forall i :: 0 < i < |a| ==> a[i] == a[1..][i - 1];
      } else {
        SubsequenceOnce(a, b[1..]);
      }
    }
  }

  /** Nothing is missed: what is not visited has been deleted. */
  lemma {:induction false} VisitedOrGone(keys: seq<bytes>, plan: seq<seq<bytes>>, i: nat, k: bytes)
    requires Once(keys) && k in keys
    ensures k in Visits(keys, plan, i) || k in Gone(keys, plan, i)
    decreases |keys|
  {
    if k != keys[0] {
      var later := Minus(keys[1..], Planned(plan, i));
      assert k in keys[1..];
      MinusIn(keys[1..], Planned(plan, i), k);
      if k !in Planned(plan, i) {
        MinusOnce(keys[1..], Planned(plan, i));
        VisitedOrGone(later, plan, i + 1, k);
      }
    }
  }

  lemma {:induction false} MinusOnce(keys: seq<bytes>, drop: set<bytes>)
    requires Once(keys)
    ensures Once(Minus(keys, drop))
  {
    SubsequenceSelf(Minus(keys, drop));
    MinusInOrder(Minus(keys, drop), keys, drop);
    SubsequenceOnce(Minus(keys, drop), keys);
  }

  lemma {:induction false} SubsequenceSelf(a: seq<bytes>)
    ensures Subsequence(a, a)
  {
    if a != [] {
      SubsequenceSelf(a[1..]);
    }
  }

  lemma {:induction false} MinusTwice(keys: seq<bytes>, a: set<bytes>, b: set<bytes>)
    ensures Minus(Minus(keys, a), b) == Minus(keys, a + b)
  {
    if keys != [] {
      MinusTwice(keys[1..], a, b);
    }
  }

  lemma {:induction false} MinusNone(keys: seq<bytes>, drop: set<bytes>)
    requires forall i :: 0 <= i < |keys| ==> keys[i] !in drop
    ensures Minus(keys, drop) == keys
  {
    if keys != [] {
      MinusNone(keys[1..], drop);
    }
  }

  lemma {:induction false} MinusAt(keys: seq<bytes>, p: nat)
    requires p < |keys| && Once(keys)
    ensures Minus(keys, {keys[p]}) == keys[..p] + keys[p + 1..]
  {
    if p == 0 {
      MinusNone(keys[1..], {keys[0]});
    } else {
      MinusAt(keys[1..], p - 1);
      assert keys[..p] + keys[p + 1..] == [keys[0]] + (keys[1..][..p - 1] + keys[1..][p..]);
    }
  }

  /**
   * Iterating with hashtable_iter and hashtable_iter_next, deleting after each visit any keys but the current
   * one. What is visited and what is deleted is given by the order of the ring and the plan alone: every pair that
   * survives is visited, no pair twice, and in the order of the ring.
   */
  method Walk(t: HashTable, plan: seq<seq<bytes>>) returns (visited: seq<bytes>)
    requires t.Valid()
    requires forall i, j :: 0 <= i < |plan| && 0 <= j < |plan[i]| ==> NulFree(plan[i][j])
    modifies t, t.buckets, {t.list}`prev, {t.list}`next, Nodes(t.ring)`prev, Nodes(t.ring)`next
    ensures t.Valid() && t.contents == old(t.contents) - Gone(Keys(old(t.ring)), plan, 0)
    ensures visited == Visits(Keys(old(t.ring)), plan, 0)
    ensures Once(visited) && Subsequence(visited, Keys(old(t.ring)))
    ensures forall k :: k in t.contents ==> k in visited
    ensures forall k :: k in visited ==> k in old(t.contents)
  {
    hide HashTable.Valid, Visits, Gone, Subsequence, Keys, Planned, Minus, Once, Nodes;
    ghost var keys := Keys(t.ring);
    ghost var gone: set<bytes> := {};
    WalkFacts(t, keys, plan);
    assert t.ring[0..] == t.ring && t.contents - gone == t.contents;
    assert [] + Visits(keys, plan, 0) == Visits(keys, plan, 0) && {} + Gone(keys, plan, 0) == Gone(keys, plan, 0);
    visited := [];
    var l := t.Iter();
    ghost var at: nat := 0;
    var i := 0;
    while l != null
      invariant t.Valid() && t.buckets == old(t.buckets) && Nodes(t.ring) <= old(Nodes(t.ring))
      invariant at <= |t.ring| && l == if at < |t.ring| then t.ring[at] else null
      invariant visited + Visits(Keys(t.ring[at..]), plan, i) == Visits(keys, plan, 0)
      invariant gone + Gone(Keys(t.ring[at..]), plan, i) == Gone(keys, plan, 0)
      invariant t.contents == old(t.contents) - gone
      decreases |t.ring| - at
    {
      Turn(t.ring, at, plan, i, visited, gone);
      visited := visited + [l.key];
      at := OneTurn(t, l, at, plan, i);
      GoneAfter(old(t.contents), gone, Planned(plan, i) - {l.key});
      gone := gone + (Planned(plan, i) - {l.key});
      l := t.IterNext(l, at);
      at := at + 1;
      i := i + 1;
    }
    WalkEnds(plan, i, visited, gone);
  }

  lemma WalkFacts(t: HashTable, keys: seq<bytes>, plan: seq<seq<bytes>>)
    requires t.Valid() && keys == Keys(t.ring)
    ensures Once(keys) && (forall k :: k in keys <==> k in t.contents)
    ensures Once(Visits(keys, plan, 0)) && Subsequence(Visits(keys, plan, 0), keys)
    ensures forall k :: k in Visits(keys, plan, 0) ==> k in t.contents
    ensures forall k :: k in t.contents ==> k in Visits(keys, plan, 0) || k in Gone(keys, plan, 0)
  {
    hide HashTable.Valid, Visits, Gone, Subsequence;
    RingKeys(t, keys);
    VisitsInOrder(keys, plan, 0);
    SubsequenceOnce(Visits(keys, plan, 0), keys);
    forall k | k in Visits(keys, plan, 0)
      ensures k in t.contents
    {
      SubsequenceIn(Visits(keys, plan, 0), keys, k);
    }
    forall k | k in t.contents
      ensures k in Visits(keys, plan, 0) || k in Gone(keys, plan, 0)
    {
      VisitedOrGone(keys, plan, 0, k);
    }
  }

  lemma RingKeys(t: HashTable, keys: seq<bytes>)
    requires t.Valid() && keys == Keys(t.ring)
    ensures Once(keys) && forall k :: k in keys <==> k in t.contents
  {
    HeldKeys(t.ring, t.contents);
  }

  lemma HeldKeys(ring: seq<Node>, contents: map<bytes, Slot>)
    requires Holds(ring, contents)
    ensures Once(Keys(ring)) && forall k :: k in Keys(ring) <==> k in contents
  {
    hide HashOf;
    assert Keyed(ring);
    forall k
      ensures k in Keys(ring) <==> k in contents
    {
      assert HasKey(ring, k) <==> k in contents;
      if k in Keys(ring) {
        var i :| 0 <= i < |ring| && Keys(ring)[i] == k;
        assert ring[i].key == k;
      }
    }
  }

  lemma Turn(ring: seq<Node>, at: nat, plan: seq<seq<bytes>>, i: nat, visited: seq<bytes>, gone: set<bytes>)
    requires at < |ring|
    ensures var key, later := ring[at].key, Minus(Keys(ring[at + 1..]), Planned(plan, i));
      && visited + Visits(Keys(ring[at..]), plan, i) == visited + [key] + Visits(later, plan, i + 1)
      && gone + Gone(Keys(ring[at..]), plan, i) == gone + (Planned(plan, i) - {key}) + Gone(later, plan, i + 1)
  {
    hide Minus, Planned;
    assert Keys(ring[at..])[1..] == Keys(ring[at + 1..]);
    Assoc(visited, [ring[at].key], Visits(Minus(Keys(ring[at + 1..]), Planned(plan, i)), plan, i + 1));
  }

  lemma GoneAfter(was: map<bytes, Slot>, gone: set<bytes>, more: set<bytes>)
    ensures was - gone - more == was - (gone + more)
  {
  }

  lemma WalkEnds(plan: seq<seq<bytes>>, i: nat, visited: seq<bytes>, gone: set<bytes>)
    ensures visited + Visits([], plan, i) == visited && gone + Gone([], plan, i) == gone
  {
  }

  /** One turn of the walk, from the visit of `l` on. */
  method OneTurn(t: HashTable, l: Node, ghost at: nat, plan: seq<seq<bytes>>, i: nat) returns (ghost at': nat)
    requires t.Valid() && at < |t.ring| && l == t.ring[at]
    requires forall i, j :: 0 <= i < |plan| && 0 <= j < |plan[i]| ==> NulFree(plan[i][j])
    modifies t, t.buckets, {t.list}`prev, {t.list}`next, Nodes(t.ring)`prev, Nodes(t.ring)`next
    ensures t.Valid() && t.buckets == old(t.buckets) && Nodes(t.ring) <= old(Nodes(t.ring))
    ensures at' < |t.ring| && l == t.ring[at'] && |t.ring| - at' <= |old(t.ring)| - at
    ensures Keys(t.ring[at' + 1..]) == Minus(old(Keys(t.ring[at + 1..])), Planned(plan, i))
    ensures t.contents == old(t.contents) - (Planned(plan, i) - {l.key})
  {
    hide HashTable.Valid, Minus, Nodes, Once;
    if i < |plan| {
      at' := DeleteOthers(t, l, at, plan[i]);
    } else {
      at' := at;
      MinusNone(Keys(t.ring[at + 1..]), {});
      assert t.contents - ({} - {l.key}) == t.contents;
    }
    assert |Keys(t.ring[at' + 1..])| <= |old(Keys(t.ring[at + 1..]))|;
  }

  /** Deletions by the body of the loop: they move the current pair's position but not the pair. */
  method DeleteOthers(t: HashTable, l: Node, ghost at: nat, keys: seq<bytes>) returns (ghost at': nat)
    requires t.Valid() && at < |t.ring| && l == t.ring[at]
    requires forall j :: 0 <= j < |keys| ==> NulFree(keys[j])
    modifies t, t.buckets, {t.list}`prev, {t.list}`next, Nodes(t.ring)`prev, Nodes(t.ring)`next
    ensures t.Valid() && t.buckets == old(t.buckets) && Nodes(t.ring) <= old(Nodes(t.ring))
    ensures at' < |t.ring| && l == t.ring[at']
    ensures Keys(t.ring[at' + 1..]) == Minus(old(Keys(t.ring[at + 1..])), Elements(keys))
    ensures t.contents == old(t.contents) - (Elements(keys) - {l.key})
  {
    hide HashTable.Valid, Minus, Nodes, Once;
    at' := at;
    ghost var later := Keys(t.ring[at + 1..]);
    MinusNone(later, {});
    assert Elements(keys[..0]) == {} && t.contents - ({} - {l.key}) == t.contents;
    var j := 0;
    while j < |keys|
      invariant 0 <= j <= |keys|
      invariant t.Valid() && t.buckets == old(t.buckets) && Nodes(t.ring) <= old(Nodes(t.ring))
      invariant at' < |t.ring| && l == t.ring[at']
      invariant Keys(t.ring[at' + 1..]) == Minus(later, Elements(keys[..j]))
      invariant t.contents == old(t.contents) - (Elements(keys[..j]) - {l.key})
    {
      ElementsNext(keys, j);
      MinusTwice(later, Elements(keys[..j]), {keys[j]});
      at' := DeleteOne(t, l, at', keys[j]);
      GoneAfter(old(t.contents), Elements(keys[..j]) - {l.key}, {keys[j]} - {l.key});
      j := j + 1;
    }
    assert keys[..j] == keys;
  }

  lemma ElementsNext(keys: seq<bytes>, j: nat)
    requires j < |keys|
    ensures Elements(keys[..j + 1]) == Elements(keys[..j]) + {keys[j]}
    ensures forall k :: Elements(keys[..j + 1]) - {k} == (Elements(keys[..j]) - {k}) + ({keys[j]} - {k})
  {
  }

  /** One key, unless it is that of the current pair. */
  method DeleteOne(t: HashTable, l: Node, ghost at: nat, key: bytes) returns (ghost at': nat)
    requires t.Valid() && at < |t.ring| && l == t.ring[at] && NulFree(key)
    modifies t, t.buckets, {t.list}`prev, {t.list}`next, Nodes(t.ring)`prev, Nodes(t.ring)`next
    ensures t.Valid() && t.buckets == old(t.buckets) && Nodes(t.ring) <= old(Nodes(t.ring))
    ensures at' < |t.ring| && l == t.ring[at']
    ensures Keys(t.ring[at' + 1..]) == Minus(old(Keys(t.ring[at + 1..])), {key})
    ensures t.contents == old(t.contents) - ({key} - {l.key})
  {
    hide HashTable.Valid, Minus, Nodes, Once;
    at' := at;
    ghost var ring := t.ring;
    RingKeys(t, Keys(ring));
    if key == l.key {
      NotBehind(ring, at, key);
      return;
    }
    var ok, dropped := t.Del(key);
    if ok {
      at' := AfterDrop(ring, key, t.ring, at);
    } else {
      NotBehind(ring, at, key);
    }
  }

  lemma NotBehind(ring: seq<Node>, at: nat, key: bytes)
    requires at < |ring| && Once(Keys(ring)) && (key !in Keys(ring) || key == ring[at].key)
    ensures Minus(Keys(ring[at + 1..]), {key}) == Keys(ring[at + 1..])
  {
    var later := Keys(ring[at + 1..]);
    assert forall i :: 0 <= i < |later| ==> later[i] == Keys(ring)[at + 1 + i];
    MinusNone(later, {key});
  }

  /**
   * Dropping another pair moves the current one down by one or not at all: the pairs in front of it and those
   * behind it are the same ones but for the dropped.
   */
  lemma AfterDrop(ring: seq<Node>, key: bytes, after: seq<Node>, at: nat) returns (at': nat)
    requires Dropped(ring, key, after) && at < |ring| && ring[at].key != key && Once(Keys(ring))
    ensures at' < |after| && after[at'] == ring[at]
    ensures Keys(after[..at']) == Minus(Keys(ring[..at]), {key})
    ensures Keys(after[at' + 1..]) == Minus(Keys(ring[at + 1..]), {key})
  {
    hide Minus, Once, Keys;
    var p :| 0 <= p < |ring| && ring[p].key == key && after == RemoveAt(ring, p);
    at' := if p < at then at - 1 else at;
    KeysParts(ring, at);
    KeysParts(after, at');
    MinusAround(Keys(ring), p, at);
    KeysRemoved(ring, p);
  }

  lemma KeysRemoved(ring: seq<Node>, p: nat)
    requires p < |ring|
    ensures Keys(RemoveAt(ring, p)) == Keys(ring)[..p] + Keys(ring)[p + 1..]
  {
  }

  lemma KeysParts(ring: seq<Node>, at: nat)
    requires at < |ring|
    ensures Keys(ring[..at]) == Keys(ring)[..at] && Keys(ring[at + 1..]) == Keys(ring)[at + 1..]
  {
  }

  lemma MinusAround(keys: seq<bytes>, p: nat, at: nat)
    requires p < |keys| && at < |keys| && p != at && Once(keys)
    ensures var after, at' := keys[..p] + keys[p + 1..], if p < at then at - 1 else at;
      after[..at'] == Minus(keys[..at], {keys[p]}) && after[at' + 1..] == Minus(keys[at + 1..], {keys[p]})
  {
    hide Minus;
    var before, behind := keys[..at], keys[at + 1..];
    if p < at {
      MinusAt(before, p);
      MinusNone(behind, {keys[p]});
    } else {
      MinusNone(before, {keys[p]});
      MinusAt(behind, p - at - 1);
    }
  }
}
