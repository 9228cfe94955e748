/** The chained hash table of jansson-2.3/src/hashtable.c: one ring of pairs, each bucket a run of it. */
module HashTables {
  import opened Bytes

  const PRIMES: seq<nat> := [
    5, 13, 23, 53, 97, 193, 389, 769, 1543, 3079, 6151, 12289, 24593,
    49157, 98317, 196613, 393241, 786433, 1572869, 3145739, 6291469,
    12582917, 25165843, 50331653, 100663319, 201326611, 402653189,
    805306457, 1610612741
  ]

  // ---- hash_str ----

  function HashFrom(h: nat, key: bytes): nat
    decreases |key|
  {
    if key == [] then h else HashFrom((h * 33 + Signed(key[0])) % 0x1_0000_0000, key[1..])
  }

  function HashOf(key: bytes): nat {
    HashFrom(5381, key)
  }

  method HashStr(key: bytes) returns (hash: nat)
    requires NulFree(key)
    ensures hash == HashOf(key)
  {
    hash := 5381;
    var i := 0;
    while At(key, i) != 0
      invariant 0 <= i <= |key|
      invariant HashFrom(hash, key[i..]) == HashOf(key)
      decreases |key| - i
    {
      var c := Signed(key[i]) % 0x1_0000_0000;
      ShiftIsTimes33(hash, Signed(key[i]));
      assert key[i..][0] == key[i] && key[i..][1..] == key[i + 1..];
      hash := ((hash * 32) % 0x1_0000_0000 + hash + c) % 0x1_0000_0000;
      i := i + 1;
    }
    assert key[i..] == [];
  }

  /** Wrapping after the shift and after sign extension is wrapping once at the end. */
  lemma ShiftIsTimes33(h: nat, c: int)
    ensures ((h * 32) % 0x1_0000_0000 + h + c % 0x1_0000_0000) % 0x1_0000_0000 == (h * 33 + c) % 0x1_0000_0000
  {
    var q, p := (h * 32) / 0x1_0000_0000, c / 0x1_0000_0000;
    var total := (h * 32) % 0x1_0000_0000 + h + c % 0x1_0000_0000;
    assert total == (h * 33 + c) - (q + p) * 0x1_0000_0000;
    assert total % 0x1_0000_0000 == (h * 33 + c) % 0x1_0000_0000;
  }

  // ---- the ring ----

  /** A pair with its list links; the table's own list head is one whose pair fields are never used. */
  class Node {
    const key: bytes
    const hash: nat
    const serial: nat
    var value: Handle
    var prev: Node
    var next: Node

    constructor (key: bytes, hash: nat, serial: nat, value: Handle)
      ensures this.key == key && this.hash == hash && this.serial == serial && this.value == value
      ensures prev == this && next == this
    {
      this.key, this.hash, this.serial, this.value := key, hash, serial, value;
      prev, next := this, this;
    }
  }

  function Nodes(ring: seq<Node>): set<Node> {
    set n | n in ring
  }

  predicate Distinct(list: Node, ring: seq<Node>) {
    && list !in ring
    && forall i, j :: 0 <= i < j < |ring| ==> ring[i] != ring[j]
  }

  function Here(list: Node, ring: seq<Node>, i: nat): Node
    requires i <= |ring|
  {
    if i < |ring| then ring[i] else list
  }

  function After(list: Node, ring: seq<Node>, i: nat): Node
    requires i < |ring|
  {
    if i + 1 < |ring| then ring[i + 1] else list
  }

  function Before(list: Node, ring: seq<Node>, i: nat): Node
    requires i <= |ring|
  {
    if i > 0 then ring[i - 1] else list
  }

  /** Head and pairs are one circular doubly linked list, the pairs in the order of `ring`. */
  ghost predicate Linked(list: Node, ring: seq<Node>)
    reads {list}`prev, {list}`next, Nodes(ring)`prev, Nodes(ring)`next
  {
    && list.next == (if ring == [] then list else ring[0])
    && list.prev == Before(list, ring, |ring|)
    && (forall i {:trigger ring[i].next} :: 0 <= i < |ring| ==> ring[i].next == After(list, ring, i))
    && (forall i {:trigger ring[i].prev} :: 0 <= i < |ring| ==> ring[i].prev == Before(list, ring, i))
  }

  /** list_insert: `node` goes in just before `at`. */
  method ListInsert(at: Node, node: Node, ghost list: Node, ghost ring: seq<Node>, ghost p: nat)
    requires Distinct(list, ring) && Linked(list, ring) && node !in ring && node != list
    requires p <= |ring| && at == Here(list, ring, p)
    modifies {at, node}`prev, {at.prev, node}`next
    ensures Linked(list, InsertAt(ring, p, node))
  {
    hide After, Before, Distinct, Here, InsertAt, Nodes;
    InsertPlace(at, list, ring, p);
    node.next := at;
    node.prev := at.prev;
    at.prev.next := node;
    at.prev := node;
    ghost var r := InsertAt(ring, p, node);
    forall i | 0 <= i < |r|
      ensures r[i].next == After(list, r, i)
      ensures r[i].prev == Before(list, r, i)
    {
      InsertNeighbours(list, ring, p, node, i);
    }
    InsertEnds(list, ring, p, node);
    assert list.next == r[0];
    assert list.prev == Before(list, r, |r|);
  }

  lemma InsertPlace(at: Node, list: Node, ring: seq<Node>, p: nat)
    requires Linked(list, ring) && p <= |ring| && at == Here(list, ring, p)
    ensures at.prev == Before(list, ring, p) && (at in ring || at == list)
    ensures Before(list, ring, p) in ring || Before(list, ring, p) == list
  {
  }

  lemma InsertEnds(list: Node, ring: seq<Node>, p: nat, node: Node)
    requires Distinct(list, ring) && p <= |ring|
    ensures var r := InsertAt(ring, p, node);
      && (list == Before(list, ring, p) <==> p == 0)
      && (list == Here(list, ring, p) <==> p == |ring|)
      && r[0] == (if p == 0 then node else ring[0])
      && Before(list, r, |r|) == (if p == |ring| then node else Before(list, ring, |ring|))
  {
  }

  /** What insertion does to the neighbours of position `i` of the new ring. */
  lemma InsertNeighbours(list: Node, ring: seq<Node>, p: nat, node: Node, i: nat)
    requires Distinct(list, ring) && p <= |ring| && i <= |ring|
    ensures var r, at, before := InsertAt(ring, p, node), Here(list, ring, p), Before(list, ring, p);
      if i == p then r[i] == node && After(list, r, i) == at && Before(list, r, i) == before
      else
        var j := if i < p then i else i - 1;
        && r[i] == ring[j]
        && After(list, r, i) == (if ring[j] == before then node else After(list, ring, j))
        && Before(list, r, i) == (if ring[j] == at then node else Before(list, ring, j))
  {
  }

  /** list_remove: the neighbours of a pair are joined. */
  method ListRemove(node: Node, ghost list: Node, ghost ring: seq<Node>, ghost p: nat)
    requires Distinct(list, ring) && Linked(list, ring)
    requires p < |ring| && node == ring[p]
    modifies node.prev`next, node.next`prev
    ensures Linked(list, RemoveAt(ring, p))
  {
    hide After, Before, Distinct, RemoveAt, Nodes;
    RemovePlace(list, ring, p);
    node.prev.next := node.next;
    node.next.prev := node.prev;
    ghost var r := RemoveAt(ring, p);
    forall i | 0 <= i < |r|
      ensures r[i].next == After(list, r, i)
      ensures r[i].prev == Before(list, r, i)
    {
      RemoveNeighbours(list, ring, p, i);
    }
    RemoveEnds(list, ring, p);
    assert list.next == if r == [] then list else r[0];
    assert list.prev == Before(list, r, |r|);
  }

  lemma RemovePlace(list: Node, ring: seq<Node>, p: nat)
    requires Linked(list, ring) && p < |ring|
    ensures ring[p].prev == Before(list, ring, p) && ring[p].next == After(list, ring, p)
  {
  }

  lemma RemoveEnds(list: Node, ring: seq<Node>, p: nat)
    requires Distinct(list, ring) && p < |ring|
    ensures var r := RemoveAt(ring, p);
      && (list == Before(list, ring, p) <==> p == 0)
      && (list == After(list, ring, p) <==> p == |ring| - 1)
      && (p == 0 ==> After(list, ring, p) == if r == [] then list else r[0])
      && (p > 0 ==> r != [] && r[0] == ring[0])
      && Before(list, r, |r|) == (if p == |ring| - 1 then Before(list, ring, p) else Before(list, ring, |ring|))
  {
  }

  /** What removal does to the neighbours of position `i` of the new ring. */
  lemma RemoveNeighbours(list: Node, ring: seq<Node>, p: nat, i: nat)
    requires Distinct(list, ring) && p < |ring| && i < |ring| - 1
    ensures var r, after, before := RemoveAt(ring, p), After(list, ring, p), Before(list, ring, p);
      var j := if i < p then i else i + 1;
      && r[i] == ring[j]
      && After(list, r, i) == (if ring[j] == before then after else After(list, ring, j))
      && Before(list, r, i) == (if ring[j] == after then before else Before(list, ring, j))
  {
  }

  // ---- the index ----

  datatype Bucket = Bucket(first: Node, last: Node)

  function BucketOf(n: Node, prime: nat): (b: nat)
    requires prime > 0
    ensures b < prime
  {
    n.hash % prime
  }

  /** Bucket `b` owns exactly the run of positions from `lo[b]` to `hi[b]`. */
  ghost predicate Grouped(ring: seq<Node>, prime: nat, lo: seq<int>, hi: seq<int>) {
    && |lo| == |hi| == prime > 0
    && (forall b :: 0 <= b < prime && lo[b] <= hi[b] ==> 0 <= lo[b] && hi[b] < |ring|)
    && (forall b, i :: 0 <= b < prime && 0 <= i < |ring| ==> (lo[b] <= i <= hi[b] <==> BucketOf(ring[i], prime) == b))
  }

  /** The buckets point at the ends of their runs, empty ones at the list head. */
  ghost predicate Indexed(bs: seq<Bucket>, list: Node, ring: seq<Node>, lo: seq<int>, hi: seq<int>) {
    && Grouped(ring, |bs|, lo, hi)
    && forall b :: 0 <= b < |bs| ==>
      bs[b] == if lo[b] <= hi[b] then Bucket(ring[lo[b]], ring[hi[b]]) else Bucket(list, list)
  }

  function ShiftUp(xs: seq<int>, p: int): (r: seq<int>)
    ensures |r| == |xs|
  {
    seq(|xs|, i requires 0 <= i < |xs| => if xs[i] >= p then xs[i] + 1 else xs[i])
  }

  function ShiftDown(xs: seq<int>, p: int): (r: seq<int>)
    ensures |r| == |xs|
  {
    seq(|xs|, i requires 0 <= i < |xs| => if xs[i] >= p then xs[i] - 1 else xs[i])
  }

  /** A pair for an empty bucket goes to the end of the ring and becomes a run of its own. */
  lemma InsertAlone(bs: seq<Bucket>, list: Node, ring: seq<Node>, lo: seq<int>, hi: seq<int>, b: nat, node: Node)
    requires Indexed(bs, list, ring, lo, hi) && b < |bs| && BucketOf(node, |bs|) == b && lo[b] > hi[b]
    ensures Indexed(bs[b := Bucket(node, node)], list, InsertAt(ring, |ring|, node), lo[b := |ring|], hi[b := |ring|])
  {
    hide BucketOf;
  }

  /** A pair for a bucket in use goes in front of its run. */
  lemma InsertFront(bs: seq<Bucket>, list: Node, ring: seq<Node>, lo: seq<int>, hi: seq<int>, b: nat, node: Node)
    requires Indexed(bs, list, ring, lo, hi) && b < |bs| && BucketOf(node, |bs|) == b && lo[b] <= hi[b]
    ensures Indexed(bs[b := Bucket(node, bs[b].last)], list, InsertAt(ring, lo[b], node),
                    ShiftUp(lo, lo[b])[b := lo[b]], ShiftUp(hi, lo[b]))
  {
    hide BucketOf;
    var p := lo[b];
    var ring', lo', hi' := InsertAt(ring, p, node), ShiftUp(lo, p)[b := p], ShiftUp(hi, p);
    forall c, i | 0 <= c < |bs| && 0 <= i < |ring'|
      ensures lo'[c] <= i <= hi'[c] <==> BucketOf(ring'[i], |bs|) == c
    {
      assert lo[c] <= p <= hi[c] <==> c == b;
    }
    assert Grouped(ring', |bs|, lo', hi');
    hide Grouped;
  }

  /** The bucket of a removed pair gives up one end of its run, or both when it was alone. */
  function Without(bucket: Bucket, list: Node, ring: seq<Node>, p: nat): Bucket
    requires p < |ring|
  {
    var node := ring[p];
    if node == bucket.first && node == bucket.last then Bucket(list, list)
    else if node == bucket.first then Bucket(After(list, ring, p), bucket.last)
    else if node == bucket.last then Bucket(bucket.first, Before(list, ring, p))
    else bucket
  }

  lemma RemoveOne(bs: seq<Bucket>, list: Node, ring: seq<Node>, lo: seq<int>, hi: seq<int>, p: nat)
    requires Distinct(list, ring) && Indexed(bs, list, ring, lo, hi) && p < |ring|
    ensures var b := BucketOf(ring[p], |bs|);
      Indexed(bs[b := Without(bs[b], list, ring, p)], list, RemoveAt(ring, p), ShiftDown(lo, p + 1), ShiftDown(hi, p))
  {
    hide BucketOf;
    var b := BucketOf(ring[p], |bs|);
    var ring', lo', hi' := RemoveAt(ring, p), ShiftDown(lo, p + 1), ShiftDown(hi, p);
    forall c, i | 0 <= c < |bs| && 0 <= i < |ring'|
      ensures lo'[c] <= i <= hi'[c] <==> BucketOf(ring'[i], |bs|) == c
    {
      assert lo[c] <= p <= hi[c] <==> c == b;
    }
    assert Grouped(ring', |bs|, lo', hi');
    assert lo[b] <= p <= hi[b];
  }

  // ---- what the table stores ----

  datatype Slot = Slot(serial: nat, value: Handle)

  /** The pairs of the ring are the entries of the abstract map, each with the hash of its key. */
  ghost predicate Holds(ring: seq<Node>, contents: map<bytes, Slot>)
    reads Nodes(ring)`value
  {
    && |contents| == |ring|
    && Keyed(ring)
    && (forall i :: 0 <= i < |ring| ==>
      ring[i].key in contents && contents[ring[i].key] == Slot(ring[i].serial, ring[i].value))
    && (forall k {:trigger HasKey(ring, k)} :: k in contents ==> HasKey(ring, k))
  }

  ghost predicate Keyed(ring: seq<Node>) {
    && (forall i :: 0 <= i < |ring| ==> ring[i].hash == HashOf(ring[i].key))
    && forall i, j :: 0 <= i < j < |ring| ==> ring[i].key != ring[j].key
  }

  ghost predicate HasKey(ring: seq<Node>, k: bytes) {
    exists i :: 0 <= i < |ring| && ring[i].key == k
  }

  lemma HoldsInsert(ring: seq<Node>, contents: map<bytes, Slot>, p: nat, node: Node)
    requires Holds(ring, contents) && p <= |ring|
    requires node.hash == HashOf(node.key) && node.key !in contents
    ensures Holds(InsertAt(ring, p, node), contents[node.key := Slot(node.serial, node.value)])
  {
    hide Keyed;
    InsertKeyed(ring, p, node, contents);
    var r := InsertAt(ring, p, node);
    forall i | 0 <= i < |r|
      ensures i != p ==> r[i].key != node.key && r[i].key in contents
                         && contents[r[i].key] == Slot(r[i].serial, r[i].value)
    {
      assert i != p ==> r[i] == ring[if i < p then i else i - 1];
    }
    forall k | k in contents || k == node.key
      ensures HasKey(r, k)
    {
      if k == node.key {
        assert r[p].key == k;
      } else {
        assert HasKey(ring, k);
        var i :| 0 <= i < |ring| && ring[i].key == k;
        assert r[if i < p then i else i + 1].key == k;
      }
    }
  }

  lemma InsertKeyed(ring: seq<Node>, p: nat, node: Node, contents: map<bytes, Slot>)
    requires Keyed(ring) && p <= |ring| && node.hash == HashOf(node.key)
    requires node.key !in contents && forall i :: 0 <= i < |ring| ==> ring[i].key in contents
    ensures Keyed(InsertAt(ring, p, node))
  {
    hide HashOf;
  }

  lemma HoldsRemove(ring: seq<Node>, contents: map<bytes, Slot>, p: nat)
    requires Holds(ring, contents) && p < |ring|
    ensures Holds(RemoveAt(ring, p), contents - {ring[p].key})
  {
    hide Keyed;
    var r, m := RemoveAt(ring, p), contents - {ring[p].key};
    MapMinusSize(contents, ring[p].key);
    RemoveKeyed(ring, p);
    forall i | 0 <= i < |r|
      ensures r[i].key in m && m[r[i].key] == Slot(r[i].serial, r[i].value)
    {
      assert r[i] == ring[if i < p then i else i + 1];
    }
    forall k | k in m
      ensures HasKey(r, k)
    {
      assert HasKey(ring, k);
      var i :| 0 <= i < |ring| && ring[i].key == k;
      assert r[if i < p then i else i - 1].key == k;
    }
  }

  lemma RemoveKeyed(ring: seq<Node>, p: nat)
    requires Keyed(ring) && p < |ring|
    ensures Keyed(RemoveAt(ring, p))
    ensures forall i :: 0 <= i < |ring| - 1 ==> RemoveAt(ring, p)[i].key != ring[p].key
  {
    hide HashOf;
    var r := RemoveAt(ring, p);
    forall i | 0 <= i < |r|
      ensures r[i].key != ring[p].key
    {
      assert r[i] == ring[if i < p then i else i + 1];
    }
  }

  lemma MapMinusSize(m: map<bytes, Slot>, k: bytes)
    requires k in m
    ensures |m - {k}| == |m| - 1
  {
    assert (m - {k}).Keys == m.Keys - {k};
    assert |(m - {k}).Keys| == |m - {k}|;
  }

  /** The table. */
  class HashTable {
    var size: nat
    var buckets: array<Bucket>
    var numBuckets: nat
    const list: Node

    ghost var ring: seq<Node>
    ghost var lo: seq<int>
    ghost var hi: seq<int>
    ghost var contents: map<bytes, Slot>

    /** Everything but the size bound, which a rehash in progress does not need. */
    ghost predicate Structured()
      reads `numBuckets, `buckets, `ring, `lo, `hi, buckets
      reads {list}`prev, {list}`next, Nodes(ring)`prev, Nodes(ring)`next
    {
      && numBuckets < |PRIMES|
      && buckets.Length == PRIMES[numBuckets]
      && Distinct(list, ring)
      && Linked(list, ring)
      && Indexed(buckets[..], list, ring, lo, hi)
    }

    ghost predicate Valid()
      reads this, buckets, list, ring
    {
      && Structured()
      && Holds(ring, contents)
      && size == |ring| <= buckets.Length
    }

    /** hashtable_init */
    constructor ()
      ensures Valid() && contents == map[] && ring == []
      ensures fresh(buckets) && fresh(list)
    {
      var head := new Node([], 0, 0, 0);
      size, numBuckets := 0, 0;
      buckets := new Bucket[PRIMES[0]](_ => Bucket(head, head));
      list := head;
      ring, contents := [], map[];
      lo, hi := seq(5, _ => 0), seq(5, _ => -1);
    }

    method InsertToBucket(b: nat, node: Node) returns (ghost p: nat)
      requires Structured() && b < buckets.Length && BucketOf(node, buckets.Length) == b
      requires node !in ring && node != list
      modifies `ring, `lo, `hi, buckets, {list, node}`prev, {list, node}`next, Nodes(ring)`prev, Nodes(ring)`next
      ensures Structured()
      ensures p <= |old(ring)| && ring == InsertAt(old(ring), p, node)
    {
      hide Before, Here, Distinct, Linked, Indexed, BucketOf, InsertAt, ShiftUp, PRIMES;
      var bucket := buckets[b];
      if bucket.first == list && bucket.first == bucket.last {
        EmptyRun(buckets[..], list, ring, lo, hi, b);
        p := |ring|;
        InsertAlone(buckets[..], list, ring, lo, hi, b, node);
        InsertPlace(list, list, ring, p);
        ListInsert(list, node, list, ring, p);
        buckets[b] := Bucket(node, node);
        lo, hi := lo[b := p], hi[b := p];
      } else {
        UsedRun(buckets[..], list, ring, lo, hi, b);
        p := lo[b];
        InsertFront(buckets[..], list, ring, lo, hi, b, node);
        InsertPlace(bucket.first, list, ring, p);
        ListInsert(bucket.first, node, list, ring, p);
        buckets[b] := Bucket(node, bucket.last);
        lo, hi := ShiftUp(lo, p)[b := p], ShiftUp(hi, p);
      }
      DistinctInsert(list, ring, p, node);
      ring := InsertAt(ring, p, node);
    }

    /** hashtable_find_pair */
    method FindPair(b: nat, key: bytes, hash: nat) returns (node: Node?, ghost at: nat)
      requires Valid() && hash == HashOf(key) && b < buckets.Length && b == hash % buckets.Length
      ensures node == null ==> key !in contents
      ensures node != null ==> at < |ring| && node == ring[at] && node.key == key && node.hash == hash
    {
      hide Here, Distinct, Linked, Indexed, HashOf, Holds, PRIMES, Nodes;
      var bucket := buckets[b];
      if bucket.first == list && bucket.first == bucket.last {
        EmptyRun(buckets[..], list, ring, lo, hi, b);
        NotStored(b, key);
        return null, 0;
      }
      UsedRun(buckets[..], list, ring, lo, hi, b);
      var l := bucket.first;
      at := lo[b];
      while true
        invariant lo[b] <= at <= hi[b] && l == ring[at]
        invariant forall i :: lo[b] <= i < at ==> ring[i].key != key
        decreases hi[b] - at
      {
        if l.hash == hash && l.key == key {
          return l, at;
        }
        HashedKeys();
        if l == bucket.last {
          SamePlace(list, ring, at, hi[b]);
          break;
        }
        NextInRing(list, ring, at);
        l := l.next;
        at := at + 1;
      }
      NotStored(b, key);
      return null, 0;
    }

    lemma HashedKeys()
      requires Valid()
      ensures forall i :: 0 <= i < |ring| ==> ring[i].hash == HashOf(ring[i].key)
    {
    }

    /** A key that is nowhere in its own bucket's run is nowhere in the table. */
    lemma NotStored(b: nat, key: bytes)
      requires Valid() && b == HashOf(key) % buckets.Length
      requires |lo| == |hi| == buckets.Length
      requires forall i :: 0 <= i < |ring| && lo[b] <= i <= hi[b] ==> ring[i].key != key
      ensures key !in contents
    {
      hide HashOf;
      forall i | 0 <= i < |ring|
        ensures ring[i].key != key
      {
        assert lo[b] <= i <= hi[b] <==> BucketOf(ring[i], buckets.Length) == b;
      }
      assert !HasKey(ring, key);
    }

    /** hashtable_get: the value of the key, or None (NULL) */
    method Get(key: bytes) returns (r: Option<Handle>)
      requires Valid() && NulFree(key)
      ensures r == if key in contents then Some(contents[key].value) else None
    {
      hide HashOf, Structured, Holds;
      var hash := HashStr(key);
      PrimePositive();
      var node, at := FindPair(hash % buckets.Length, key, hash);
      if node == null {
        return None;
      }
      StoredAt(at);
      return Some(node.value);
    }

    /** The load never exceeds one, and the count is the map's. */
    lemma SizeCounts()
      requires Valid()
      ensures size == |contents| == |ring| && size <= buckets.Length == PRIMES[numBuckets]
    {
    }

    lemma PrimePositive()
      requires Valid()
      ensures buckets.Length > 0
    {
    }

    lemma StoredAt(at: nat)
      requires Valid() && at < |ring|
      ensures ring[at].key in contents && contents[ring[at].key] == Slot(ring[at].serial, ring[at].value)
    {
    }

    /** hashtable_del: false (-1) when there is no such key; `dropped` is the value whose reference is given up. */
    method Del(key: bytes) returns (ok: bool, dropped: Option<Handle>)
      requires Valid() && NulFree(key)
      modifies this, buckets, {list}`prev, {list}`next, Nodes(ring)`prev, Nodes(ring)`next
      ensures Valid() && buckets == old(buckets)
      ensures ok == (key in old(contents))
      ensures contents == old(contents) - {key}
      ensures dropped == if ok then Some(old(contents)[key].value) else None
      ensures !ok ==> ring == old(ring)
      ensures ok ==> Dropped(old(ring), key, ring)
      ensures Nodes(ring) <= old(Nodes(ring))
    {
      hide Distinct, Linked, Indexed, Holds, HashOf, Dropped, RemoveAt, PRIMES;
      var hash := HashStr(key);
      PrimePositive();
      var index := hash % buckets.Length;
      var node, at := FindPair(index, key, hash);
      if node == null {
        assert contents - {key} == contents;
        return false, None;
      }
      StoredAt(at);
      dropped := Some(node.value);
      DroppedAt(ring, at);
      Unlink(index, node, at);
      HoldsRemove(ring, contents, at);
      ring, contents := RemoveAt(ring, at), contents - {key};
      size := size - 1;
      assert Structured();
      ok := true;
    }

    /** The part of hashtable_do_del that takes a found pair out of its bucket and the list. */
    method Unlink(index: nat, node: Node, ghost at: nat)
      requires Structured() && at < |ring| && node == ring[at]
      requires index == BucketOf(node, buckets.Length)
      modifies `lo, `hi, buckets, {list}`prev, {list}`next, Nodes(ring)`prev, Nodes(ring)`next
      ensures numBuckets < |PRIMES| && buckets.Length == PRIMES[numBuckets]
      ensures var r := RemoveAt(ring, at);
        Distinct(list, r) && Linked(list, r) && Indexed(buckets[..], list, r, lo, hi)
    {
      hide Distinct, Linked, Indexed, Before, After, BucketOf, RemoveAt, ShiftDown, PRIMES;
      var bucket := buckets[index];
      RemoveOne(buckets[..], list, ring, lo, hi, at);
      RemovePlace(list, ring, at);
      if node == bucket.first && node == bucket.last {
        buckets[index] := Bucket(list, list);
      } else if node == bucket.first {
        buckets[index] := Bucket(node.next, bucket.last);
      } else if node == bucket.last {
        buckets[index] := Bucket(bucket.first, node.prev);
      }
      assert buckets[index] == Without(bucket, list, ring, at);
      assert buckets[..] == old(buckets[..])[index := Without(bucket, list, ring, at)];
      NeighboursIn(list, ring, at);
      ListRemove(node, list, ring, at);
      lo, hi := ShiftDown(lo, at + 1), ShiftDown(hi, at);
      DistinctRemove(list, ring, at);
    }

    /** hashtable_do_rehash: the next prime, new buckets, and every pair moved over from the old chain. */
    method DoRehash()
      requires Valid() && numBuckets + 1 < |PRIMES|
      modifies this, {list}`prev, {list}`next, Nodes(ring)`prev, Nodes(ring)`next
      ensures Valid() && size < buckets.Length && fresh(buckets)
      ensures numBuckets == old(numBuckets) + 1 && size == old(size) && contents == old(contents)
      ensures Nodes(ring) == Nodes(old(ring))
    {
      hide Structured, Distinct, Here, Rest, Moved, Holds, PRIMES, PrimeAfter;
      ghost var was := ring;
      var l := NewBuckets();
      ghost var i := 0;
      while l != list
        invariant i <= |was| && l == Here(list, was, i)
        invariant Structured() && fresh(buckets) && buckets.Length > size && buckets.Length == old(PrimeAfter())
        invariant numBuckets == old(numBuckets) + 1 && size == old(size) && contents == old(contents)
        invariant Distinct(list, was) && Rest(list, was, i) && Moved(ring, was, i) && Holds(was, contents)
        decreases |was| - i
      {
        l := MovePair(l, was, i);
        i := i + 1;
      }
      StructuredDistinct();
      MovedAll(list, was, ring, i, contents);
    }

    ghost function PrimeAfter(): nat
      reads this
    {
      if numBuckets + 1 < |PRIMES| then PRIMES[numBuckets + 1] else 0
    }

    lemma StructuredDistinct()
      requires Structured()
      ensures Distinct(list, ring) && buckets.Length > 0
    {
    }

    /** The empty, larger table a rehash starts with; `l` is the first pair of the old chain. */
    method NewBuckets() returns (l: Node)
      requires Valid() && numBuckets + 1 < |PRIMES|
      modifies `numBuckets, `buckets, `ring, `lo, `hi, {list}`prev, {list}`next
      ensures Structured() && fresh(buckets) && ring == []
      ensures numBuckets == old(numBuckets) + 1 && size < buckets.Length == old(PrimeAfter())
      ensures l == Here(list, old(ring), 0) && Distinct(list, old(ring))
      ensures Rest(list, old(ring), 0) && Moved([], old(ring), 0) && Holds(old(ring), contents)
    {
      hide Linked, Indexed, Here, Rest, Moved, Holds, PRIMES, Nodes;
      numBuckets := numBuckets + 1;
      PrimesGrow(numBuckets);
      var newSize, head := PRIMES[numBuckets], list;
      buckets := new Bucket[newSize](_ => Bucket(head, head));
      StartMoving(list, ring);
      assert list !in ring;
      l := list.next;
      list.next, list.prev := list, list;
      ring, lo, hi := [], seq(newSize, _ => 0), seq(newSize, _ => -1);
      NoPairs(list, buckets[..], lo, hi);
    }

    /** One step of the walk: the link onwards is read before the pair is rewired. */
    method MovePair(l: Node, ghost was: seq<Node>, ghost i: nat) returns (next: Node)
      requires Structured() && Distinct(list, was) && i <= |was| && l == Here(list, was, i) && l != list
      requires Rest(list, was, i) && Moved(ring, was, i)
      modifies `ring, `lo, `hi, buckets, {list}`prev, {list}`next, Nodes(was)`prev, Nodes(was)`next
      ensures Structured() && i < |was| && next == Here(list, was, i + 1)
      ensures Rest(list, was, i + 1) && Moved(ring, was, i + 1)
    {
      hide Structured, Distinct, Here, After, Moved, InsertAt;
      RestStep(list, was, i, ring);
      StructuredDistinct();
      next := l.next;
      var index := l.hash % buckets.Length;
      assert index == BucketOf(l, buckets.Length);
      assert l in Nodes(was);
      RestApart(list, ring, was, i);
      ghost var before := ring;
      ghost var p := InsertToBucket(index, l);
      MovedStep(list, before, was, i, p);
      assert Rest(list, was, i + 1);
    }

    /**
     * hashtable_set: a new pair, or a new value in the pair the key already has, whose serial it keeps.
     * `dropped` is the value whose reference is given up.
     */
    method Set(key: bytes, serial: nat, value: Handle) returns (dropped: Option<Handle>)
      requires Valid() && NulFree(key) && size < PRIMES[|PRIMES| - 1]
      modifies this, buckets, {list}`prev, {list}`next, Nodes(ring)
      ensures Valid() && (buckets == old(buckets) || fresh(buckets)) && fresh(Nodes(ring) - old(Nodes(ring)))
      ensures contents ==
        old(contents)[key := Slot(if key in old(contents) then old(contents)[key].serial else serial, value)]
      ensures dropped == if key in old(contents) then Some(old(contents)[key].value) else None
    {
      hide Distinct, Linked, Indexed, HashOf, Holds, PRIMES;
      PrimePositive();
      if size >= buckets.Length {
        assert numBuckets + 1 < |PRIMES|;
        DoRehash();
      }
      var hash := HashStr(key);
      PrimePositive();
      var index := hash % buckets.Length;
      var node, at := FindPair(index, key, hash);
      if node != null {
        StoredAt(at);
        InNodes(ring, at);
        var replaced := Replace(node, at, value);
        return Some(replaced);
      }
      AddPair(index, key, hash, serial, value);
      dropped := None;
    }

    /** hashtable_iter_set, and the replacing half of hashtable_set. */
    method Replace(node: Node, ghost at: nat, value: Handle) returns (dropped: Handle)
      requires Valid() && at < |ring| && node == ring[at]
      modifies node`value, `contents
      ensures Valid() && dropped == old(node.value)
      ensures contents == old(contents)[node.key := Slot(node.serial, value)]
    {
      hide Structured, HashOf, Distinct;
      InNodes(ring, at);
      dropped := node.value;
      node.value := value;
      ghost var was := contents;
      contents := contents[node.key := Slot(node.serial, value)];
      assert Holds(ring, contents) by {
        assert contents.Keys == was.Keys;
        assert |contents.Keys| == |contents| && |was.Keys| == |was|;
      }
    }

    /** The inserting half of hashtable_set. */
    method AddPair(index: nat, key: bytes, hash: nat, serial: nat, value: Handle)
      requires Valid() && size < buckets.Length && hash == HashOf(key) && key !in contents
      requires index < buckets.Length && index == hash % buckets.Length
      modifies `size, `ring, `lo, `hi, `contents, buckets, {list}`prev, {list}`next, Nodes(ring)`prev, Nodes(ring)`next
      ensures Valid() && fresh(Nodes(ring) - old(Nodes(ring)))
      ensures contents == old(contents)[key := Slot(serial, value)]
    {
      hide Structured, HashOf, Holds, InsertAt;
      var node := new Node(key, hash, serial, value);
      assert index == BucketOf(node, buckets.Length);
      ghost var was := ring;
      ghost var p := InsertToBucket(index, node);
      HoldsInsert(was, contents, p, node);
      InsertNodes(was, p, node);
      contents := contents[key := Slot(serial, value)];
      size := size + 1;
    }

    /** hashtable_clear: every value is given up, every bucket and the list are emptied; the prime stays. */
    method Clear() returns (dropped: seq<Handle>)
      requires Valid()
      modifies this, buckets, {list}`prev, {list}`next
      ensures Valid() && contents == map[] && ring == [] && numBuckets == old(numBuckets) && buckets == old(buckets)
      ensures |dropped| == |old(ring)| && forall i :: 0 <= i < |dropped| ==> dropped[i] == old(ring[i].value)
    {
      hide Structured, Holds, PRIMES, Nodes;
      assert Structured();
      dropped := DoClear();
      assert Valid() && Structured();
      EmptyBuckets();
      EmptyList();
      size, contents := 0, map[];
      NothingHeld();
    }

    method EmptyList()
      requires numBuckets < |PRIMES| && buckets.Length == PRIMES[numBuckets] > 0
      requires forall b :: 0 <= b < buckets.Length ==> buckets[b] == Bucket(list, list)
      modifies `ring, `lo, `hi, {list}`prev, {list}`next
      ensures Structured() && ring == []
    {
      hide Distinct, Linked, Indexed, PRIMES, Nodes;
      list.next, list.prev := list, list;
      ring, lo, hi := [], seq(buckets.Length, _ => 0), seq(buckets.Length, _ => -1);
      NoPairs(list, buckets[..], lo, hi);
      assert Structured();
    }

    method EmptyBuckets()
      requires Structured()
      modifies buckets
      ensures numBuckets < |PRIMES| && buckets.Length == PRIMES[numBuckets] > 0
      ensures forall b :: 0 <= b < buckets.Length ==> buckets[b] == Bucket(list, list)
    {
      hide Distinct, Linked, Indexed, PRIMES, Nodes;
      PrimesGrow(numBuckets);
      var i := 0;
      while i < buckets.Length
        invariant 0 <= i <= buckets.Length
        invariant forall b :: 0 <= b < i ==> buckets[b] == Bucket(list, list)
      {
        buckets[i] := Bucket(list, list);
        i := i + 1;
      }
    }

    /** hashtable_do_clear: one walk of the list, reading the link onwards before a pair is freed. */
    method DoClear() returns (dropped: seq<Handle>)
      requires Valid()
      ensures |dropped| == |ring| && forall i :: 0 <= i < |dropped| ==> dropped[i] == ring[i].value
    {
      hide Distinct, Linked, Indexed, Holds, Here, PRIMES, Rest, Moved, Nodes;
      dropped := [];
      StartMoving(list, ring);
      var l := list.next;
      while l != list
        invariant Distinct(list, ring) && Linked(list, ring)
        invariant |dropped| <= |ring| && l == Here(list, ring, |dropped|)
        invariant forall i :: 0 <= i < |dropped| ==> dropped[i] == ring[i].value
        decreases |ring| - |dropped|
      {
        HereInside(list, ring, |dropped|);
        NextInRing(list, ring, |dropped|);
        var next := l.next;
        dropped := dropped + [l.value];
        l := next;
      }
      HereEnds(list, ring, |dropped|);
    }

    // ---- iteration ----

    /** hashtable_iter_next, from the list head (hashtable_iter) or from a pair. */
    method IterNext(node: Node, ghost at: int) returns (r: Node?)
      requires Valid() && -1 <= at < |ring| && node == if at < 0 then list else ring[at]
      ensures r == if at + 1 < |ring| then ring[at + 1] else null
    {
      hide Distinct, Linked, Indexed, Holds, Here, PRIMES, Rest, Moved, Nodes;
      if at >= 0 {
        NextInRing(list, ring, at);
      } else {
        StartMoving(list, ring);
      }
      HereNext(list, ring, at + 1);
      if node.next == list {
        return null;
      }
      return node.next;
    }

    /** hashtable_iter */
    method Iter() returns (r: Node?)
      requires Valid()
      ensures r == if ring == [] then null else ring[0]
    {
      r := IterNext(list, -1);
    }

    /** hashtable_iter_at */
    method IterAt(key: bytes) returns (r: Node?)
      requires Valid() && NulFree(key)
      ensures r == null <==> key !in contents
      ensures r != null ==> r in ring && r.key == key
    {
      hide HashOf, Structured, Holds, Nodes;
      var hash := HashStr(key);
      PrimePositive();
      ghost var at;
      r, at := FindPair(hash % buckets.Length, key, hash);
      if r != null {
        StoredAt(at);
      }
    }
  }

  lemma NothingHeld()
    ensures Holds([], map[])
  {
  }

  lemma HereInside(list: Node, ring: seq<Node>, i: nat)
    requires i <= |ring| && Here(list, ring, i) != list
    ensures i < |ring| && Here(list, ring, i) == ring[i]
    ensures Here(list, ring, i + 1) == if i + 1 < |ring| then ring[i + 1] else list
  {
  }

  lemma HereEnds(list: Node, ring: seq<Node>, i: nat)
    requires Distinct(list, ring) && i <= |ring| && Here(list, ring, i) == list
    ensures i == |ring|
  {
  }

  lemma HereNext(list: Node, ring: seq<Node>, i: nat)
    requires Distinct(list, ring) && i <= |ring|
    ensures Here(list, ring, i) == if i < |ring| then ring[i] else list
    ensures i < |ring| ==> ring[i] != list
  {
  }

  lemma InNodes(ring: seq<Node>, at: nat)
    requires at < |ring|
    ensures ring[at] in Nodes(ring)
  {
  }

  lemma PrimesGrow(i: nat)
    requires i < |PRIMES|
    ensures PRIMES[i] > 0
    ensures i > 0 ==> PRIMES[i - 1] < PRIMES[i]
  {
  }

  lemma NoPairs(list: Node, bs: seq<Bucket>, lo: seq<int>, hi: seq<int>)
    requires |lo| == |hi| == |bs| > 0 && list.next == list && list.prev == list
    requires forall b :: 0 <= b < |bs| ==> bs[b] == Bucket(list, list) && lo[b] == 0 && hi[b] == -1
    ensures Distinct(list, []) && Linked(list, []) && Indexed(bs, list, [], lo, hi)
  {
  }

  /** The part of the old chain still to be walked is intact. */
  ghost predicate Rest(list: Node, was: seq<Node>, i: nat)
    reads was
  {
    forall k :: i <= k < |was| ==> was[k].next == After(list, was, k)
  }

  /** The new ring holds exactly the pairs already walked. */
  ghost predicate Moved(ring: seq<Node>, was: seq<Node>, i: nat) {
    && i <= |was|
    && |ring| == i
    && Nodes(ring) == Nodes(was[..i])
  }
  lemma StartMoving(list: Node, was: seq<Node>)
    requires Linked(list, was)
    ensures list.next == Here(list, was, 0) && Rest(list, was, 0) && Moved([], was, 0)
  {
  }

  /** The next pair to move is not yet in the new ring, and its link still leads to the one after it. */
  lemma RestStep(list: Node, was: seq<Node>, i: nat, ring: seq<Node>)
    requires Distinct(list, was) && i <= |was| && Here(list, was, i) != list
    requires Rest(list, was, i) && Moved(ring, was, i)
    ensures i < |was| && Here(list, was, i) == was[i] && was[i] !in ring && was[i] != list
    ensures was[i].next == Here(list, was, i + 1)
    ensures Nodes(ring) <= Nodes(was)
  {
    assert was[i] !in was[..i];
    assert forall n :: n in ring ==> n in Nodes(was[..i]);
    forall n | n in Nodes(ring)
      ensures n in was
    {
      assert n in was[..i];
    }
  }

  lemma MovedStep(list: Node, ring: seq<Node>, was: seq<Node>, i: nat, p: nat)
    requires Distinct(list, was) && i < |was| && Moved(ring, was, i) && p <= |ring|
    ensures Moved(InsertAt(ring, p, was[i]), was, i + 1)
  {
    var r := InsertAt(ring, p, was[i]);
    assert was[..i + 1] == was[..i] + [was[i]];
    InsertNodes(ring, p, was[i]);
    assert Nodes(was[..i + 1]) == Nodes(was[..i]) + {was[i]};
  }

  lemma InsertNodes(ring: seq<Node>, p: nat, node: Node)
    requires p <= |ring|
    ensures Nodes(InsertAt(ring, p, node)) == Nodes(ring) + {node}
  {
    var r := InsertAt(ring, p, node);
    forall n | n in ring
      ensures n in r
    {
      var k :| 0 <= k < |ring| && ring[k] == n;
      assert r[if k < p then k else k + 1] == n;
    }
    assert r[p] == node;
  }

  /** Moving one pair rewires that pair, the head and pairs moved before; the rest of the chain is none of these. */
  lemma RestApart(list: Node, ring: seq<Node>, was: seq<Node>, i: nat)
    requires Distinct(list, was) && i < |was| && Moved(ring, was, i)
    ensures forall k :: i + 1 <= k < |was| ==> was[k] !in Nodes(ring) && was[k] != was[i] && was[k] != list
  {
  }

  lemma MovedAll(list: Node, was: seq<Node>, ring: seq<Node>, i: nat, contents: map<bytes, Slot>)
    requires Distinct(list, was) && Distinct(list, ring) && Moved(ring, was, i) && Here(list, was, i) == list
    requires Holds(was, contents)
    ensures Holds(ring, contents) && |ring| == |was| && Nodes(ring) == Nodes(was)
  {
    hide HashOf;
    assert was[..i] == was;
    forall j | 0 <= j < |ring|
      ensures exists k :: 0 <= k < |was| && was[k] == ring[j]
    {
      assert ring[j] in Nodes(ring);
    }
    forall k | k in contents
      ensures HasKey(ring, k)
    {
      assert HasKey(was, k);
      var j :| 0 <= j < |was| && was[j].key == k;
      assert was[j] in Nodes(was);
      var m :| 0 <= m < |ring| && ring[m] == was[j];
    }
    assert Keyed(ring);
  }

  /** `after` is `ring` without its pair for `key`. */
  ghost predicate Dropped(ring: seq<Node>, key: bytes, after: seq<Node>) {
    exists p: nat :: p < |ring| && ring[p].key == key && after == RemoveAt(ring, p)
  }

  lemma DroppedAt(ring: seq<Node>, p: nat)
    requires p < |ring|
    ensures Dropped(ring, ring[p].key, RemoveAt(ring, p))
    ensures Nodes(RemoveAt(ring, p)) <= Nodes(ring)
  {
  }

  lemma NeighboursIn(list: Node, ring: seq<Node>, p: nat)
    requires p < |ring|
    ensures Before(list, ring, p) in ring || Before(list, ring, p) == list
    ensures After(list, ring, p) in ring || After(list, ring, p) == list
  {
  }

  lemma DistinctRemove(list: Node, ring: seq<Node>, p: nat)
    requires Distinct(list, ring) && p < |ring|
    ensures Distinct(list, RemoveAt(ring, p))
  {
  }

  lemma SamePlace(list: Node, ring: seq<Node>, i: nat, j: nat)
    requires Distinct(list, ring) && i < |ring| && j < |ring| && ring[i] == ring[j]
    ensures i == j
  {
  }

  lemma NextInRing(list: Node, ring: seq<Node>, i: nat)
    requires Linked(list, ring) && i < |ring|
    ensures ring[i].next == if i + 1 < |ring| then ring[i + 1] else list
  {
  }

  lemma DistinctInsert(list: Node, ring: seq<Node>, p: nat, node: Node)
    requires Distinct(list, ring) && p <= |ring| && node !in ring && node != list
    ensures Distinct(list, InsertAt(ring, p, node))
  {
  }

  lemma EmptyRun(bs: seq<Bucket>, list: Node, ring: seq<Node>, lo: seq<int>, hi: seq<int>, b: nat)
    requires Distinct(list, ring) && Indexed(bs, list, ring, lo, hi) && b < |bs| && bs[b] == Bucket(list, list)
    ensures |lo| == |hi| == |bs| && lo[b] > hi[b] && Here(list, ring, |ring|) == list
  {
    hide BucketOf;
  }

  lemma UsedRun(bs: seq<Bucket>, list: Node, ring: seq<Node>, lo: seq<int>, hi: seq<int>, b: nat)
    requires Distinct(list, ring) && Indexed(bs, list, ring, lo, hi) && b < |bs| && bs[b] != Bucket(list, list)
    ensures |lo| == |hi| == |bs| && 0 <= lo[b] <= hi[b] < |ring|
    ensures bs[b] == Bucket(ring[lo[b]], ring[hi[b]]) && Here(list, ring, lo[b]) == ring[lo[b]]
  {
    hide BucketOf;
  }
}
