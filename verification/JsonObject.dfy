/** JSON objects: a hash table and a serial counter (jansson-2.3/src/value.c:76-134, dump.c:293-357). */
module JsonObjects {
  import opened Bytes
  import opened HashTables
  import opened JsonValue
  import opened JsonOrder
  import Utf8

  datatype Op = SetOp(key: bytes) | DelOp(key: bytes) | ClearOp

  /** The number of the operation that first inserted `key` since it was last deleted. */
  function Born(history: seq<Op>, key: bytes): (b: Option<nat>)
    ensures b.Some? ==> b.value < |history| && history[b.value] == SetOp(key)
  {
    if history == [] then None
    else
      var last, before := history[|history| - 1], Born(history[..|history| - 1], key);
      match last
      case ClearOp => None
      case DelOp(k) => if k == key then None else before
      case SetOp(k) => if k == key && before == None then Some(|history| - 1) else before
  }

  lemma BornStep(history: seq<Op>, op: Op, key: bytes)
    ensures Born(history + [op], key) ==
      match op
      case ClearOp => None
      case DelOp(k) => if k == key then None else Born(history, key)
      case SetOp(k) => if k == key && Born(history, key) == None then Some(|history|) else Born(history, key)
  {
    assert (history + [op])[..|history|] == history;
  }

  /** The keys held are those born and not deleted since, and serials order them by birth. */
  ghost predicate Ordered(contents: map<bytes, Slot>, serial: nat, history: seq<Op>) {
    && (forall k :: k in contents <==> Born(history, k).Some?)
    && (forall k :: k in contents ==> contents[k].serial < serial)
    && (forall j, k :: j in contents && k in contents ==>
      (contents[j].serial < contents[k].serial <==> Born(history, j).value < Born(history, k).value))
  }

  /** Live serials are pairwise distinct. */
  lemma SerialsDiffer(contents: map<bytes, Slot>, serial: nat, history: seq<Op>, j: bytes, k: bytes)
    requires Ordered(contents, serial, history) && j in contents && k in contents && j != k
    ensures contents[j].serial != contents[k].serial
  {
    assert Born(history, j) != Born(history, k);
  }

  class JsonObject {
    const table: HashTable
    const self: Handle
    var serial: nat
    ghost var history: seq<Op>

    ghost predicate Valid()
      reads this, table, table.buckets, table.list, table.ring
    {
      && table.Valid()
      && Ordered(table.contents, serial, history)
    }

    /** json_object */
    constructor (self: Handle)
      ensures Valid() && table.contents == map[] && history == []
      ensures fresh(table) && fresh(table.buckets) && fresh(table.list) && table.ring == []
    {
      table := new HashTable();
      this.self := self;
      serial, history := 0, [];
    }

    /**
     * json_object_set_new (and _nocheck, which skips the check of the key): a serial is used up even when the
     * key is there already. `dropped` are the values whose reference is given up.
     */
    method SetNew(key: Option<bytes>, value: Option<Handle>, check: bool) returns (rc: int, dropped: Option<Handle>)
      requires Valid() && (key.Some? ==> NulFree(key.value)) && table.size < PRIMES[|PRIMES| - 1]
      modifies this, table, table.buckets, {table.list}`prev, {table.list}`next, Nodes(table.ring)
      ensures Valid()
      ensures rc ==
        if key.Some? && (check ==> Utf8.Valid(key.value)) && value.Some? && value.value != self then 0 else -1
      ensures rc != 0 ==> table.contents == old(table.contents) && history == old(history) && dropped == value
      ensures rc == 0 ==> history == old(history) + [SetOp(key.value)]
      ensures rc == 0 ==>
        && table.contents.Keys == old(table.contents.Keys) + {key.value}
        && table.contents[key.value].value == value.value
        && forall k :: k in old(table.contents) && k != key.value ==> table.contents[k] == old(table.contents)[k]
      ensures rc == 0 ==>
        dropped == if key.value in old(table.contents) then Some(old(table.contents)[key.value].value) else None
    {
      hide HashTable.Valid, Ordered, Utf8.Valid;
      if check && key.Some? {
        var valid := Utf8.CheckString(key.value);
        if !valid {
          return -1, value;
        }
      }
      if value == None {
        return -1, None;
      }
      if key == None || value.value == self {
        return -1, value;
      }
      OrderedSet(table.contents, serial, history, key.value, value.value);
      var used := serial;
      serial := serial + 1;
      history := history + [SetOp(key.value)];
      dropped := table.Set(key.value, used, value.value);
      rc := 0;
    }

    /** json_object_del */
    method Del(key: bytes) returns (rc: int, dropped: Option<Handle>)
      requires Valid() && NulFree(key)
      modifies this, table, table.buckets, {table.list}`prev, {table.list}`next, Nodes(table.ring)
      ensures Valid() && table.contents == old(table.contents) - {key} && history == old(history) + [DelOp(key)]
      ensures rc == if key in old(table.contents) then 0 else -1
      ensures dropped == if rc == 0 then Some(old(table.contents)[key].value) else None
    {
      hide HashTable.Valid, Ordered;
      OrderedDel(table.contents, serial, history, key);
      history := history + [DelOp(key)];
      var ok;
      ok, dropped := table.Del(key);
      rc := if ok then 0 else -1;
    }

    /** json_object_clear: numbering starts again. */
    method Clear() returns (dropped: seq<Handle>)
      requires Valid()
      modifies this, table, table.buckets, {table.list}`prev, {table.list}`next
      ensures Valid() && table.contents == map[] && history == old(history) + [ClearOp]
      ensures |dropped| == |old(table.ring)|
      ensures forall i :: 0 <= i < |dropped| ==> dropped[i] == old(table.ring[i].value)
    {
      hide HashTable.Valid, Ordered;
      OrderedClear(table.contents, serial, history);
      history := history + [ClearOp];
      serial := 0;
      dropped := table.Clear();
    }
  }

  lemma OrderedSet(contents: map<bytes, Slot>, serial: nat, history: seq<Op>, key: bytes, value: Handle)
    requires Ordered(contents, serial, history)
    ensures Ordered(contents[key := Slot(if key in contents then contents[key].serial else serial, value)],
                    serial + 1, history + [SetOp(key)])
  {
    hide Born;
    var h := history + [SetOp(key)];
    forall k
      ensures Born(h, k) == if k == key && Born(history, k) == None then Some(|history|) else Born(history, k)
    {
      BornStep(history, SetOp(key), k);
    }
  }

  lemma OrderedDel(contents: map<bytes, Slot>, serial: nat, history: seq<Op>, key: bytes)
    requires Ordered(contents, serial, history)
    ensures Ordered(contents - {key}, serial, history + [DelOp(key)])
  {
  }

  lemma OrderedClear(contents: map<bytes, Slot>, serial: nat, history: seq<Op>)
    requires Ordered(contents, serial, history)
    ensures Ordered(map[], 0, history + [ClearOp])
  {
  }

  // ---- writing the keys in insertion order ----

  /** What do_dump collects: key and serial of every pair, in the order of the list. */
  ghost predicate Collected(ms: seq<Member>, ring: seq<Node>) {
    |ms| == |ring| && forall i :: 0 <= i < |ms| ==> ms[i] == Member(ring[i].key, ring[i].serial, Null)
  }

  /** The keys held, in the order in which each was first inserted since it was last deleted. */
  ghost predicate ByBirth(keys: seq<Member>, contents: map<bytes, Slot>, history: seq<Op>) {
    && (forall k :: k in contents <==> JsonValue.HasKey(keys, k))
    && (forall i :: 0 <= i < |keys| ==> Born(history, keys[i].key).Some?)
    && (forall i, j :: 0 <= i < j < |keys| ==> Born(history, keys[i].key).value < Born(history, keys[j].key).value)
  }

  /**
   * The key table of a PRESERVE_ORDER dump: collected by iteration and sorted by serial. Its keys are exactly
   * the keys held, in the order in which each was first inserted since it was last deleted.
   */
  method KeysInOrder(obj: JsonObject) returns (keys: seq<Member>)
    requires obj.Valid()
    ensures |keys| == |obj.table.contents| && ByBirth(keys, obj.table.contents, obj.history)
  {
    hide HashTable.Valid, Arrange, ByBirth;
    var table := obj.table;
    var ms: seq<Member> := [];
    var l := table.Iter();
    while l != null
      invariant |ms| <= |table.ring| && l == if |ms| < |table.ring| then table.ring[|ms|] else null
      invariant Collected(ms, table.ring[..|ms|])
      decreases |table.ring| - |ms|
    {
      ghost var at := |ms|;
      ms := ms + [Member(l.key, l.serial, Null)];
      l := table.IterNext(l, at);
    }
    assert table.ring[..|ms|] == table.ring;
    keys := Arrange(BySerial, ms);
    table.SizeCounts();
    SortedByBirth(obj, ms);
  }

  lemma SortedByBirth(obj: JsonObject, ms: seq<Member>)
    requires obj.Valid() && Collected(ms, obj.table.ring)
    ensures ByBirth(Arrange(BySerial, ms), obj.table.contents, obj.history)
  {
    hide HashTable.Valid, Arrange, Born;
    var keys := Arrange(BySerial, ms);
    CollectedKeys(obj, ms);
    ArrangeSorted(BySerial, ms);
    SameMembers(keys, ms);
    forall k | k in obj.table.contents
      ensures JsonValue.HasKey(keys, k)
    {
      var i :| 0 <= i < |ms| && ms[i].key == k;
      assert ms[i] in keys;
      var j :| 0 <= j < |keys| && keys[j] == ms[i];
      assert keys[j].key == k;
    }
    forall i | 0 <= i < |keys|
      ensures keys[i].key in obj.table.contents && obj.table.contents[keys[i].key].serial == keys[i].serial
    {
      assert keys[i] in ms;
    }
  }

  lemma CollectedKeys(obj: JsonObject, ms: seq<Member>)
    requires obj.Valid() && Collected(ms, obj.table.ring)
    ensures DistinctKeys(ms) && DistinctSerials(ms)
    ensures forall k :: k in obj.table.contents ==> exists i :: 0 <= i < |ms| && ms[i].key == k
    ensures forall i :: 0 <= i < |ms| ==>
      ms[i].key in obj.table.contents && obj.table.contents[ms[i].key].serial == ms[i].serial
  {
    hide HashTable.Valid, Born, Ordered;
    var table := obj.table;
    Pairs(table);
    forall k | k in table.contents
      ensures exists i :: 0 <= i < |ms| && ms[i].key == k
    {
      var i :| 0 <= i < |table.ring| && table.ring[i].key == k;
      assert ms[i].key == k;
    }
    forall i, j | 0 <= i < j < |ms|
      ensures ms[i].serial != ms[j].serial
    {
      assert table.ring[i].key != table.ring[j].key;
      SerialsDiffer(table.contents, obj.serial, obj.history, ms[i].key, ms[j].key);
    }
  }

  lemma Pairs(table: HashTable)
    requires table.Valid()
    ensures forall i, j :: 0 <= i < j < |table.ring| ==> table.ring[i].key != table.ring[j].key
    ensures forall i :: 0 <= i < |table.ring| ==>
      table.ring[i].key in table.contents && table.contents[table.ring[i].key].serial == table.ring[i].serial
    ensures forall k :: k in table.contents ==> exists i :: 0 <= i < |table.ring| && table.ring[i].key == k
  {
    hide HashOf;
    assert Holds(table.ring, table.contents) && Keyed(table.ring);
    hide HashTable.Structured;
    forall k | k in table.contents
      ensures exists i :: 0 <= i < |table.ring| && table.ring[i].key == k
    {
      assert HashTables.HasKey(table.ring, k);
    }
  }
}
