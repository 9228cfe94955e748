/** The order in which do_dump takes the members of an object (jansson-2.3/src/dump.c:152-164, 293-357). */
module JsonOrder {
  import opened Bytes
  import opened JsonValue

  datatype Order = AsStored | ByKey | BySerial

  /** strcmp(a, b) < 0 on byte strings. */
  predicate KeyLess(a: bytes, b: bytes) {
    if b == [] then false
    else if a == [] then true
    else if a[0] != b[0] then a[0] < b[0]
    else KeyLess(a[1..], b[1..])
  }

  lemma KeyLessTrichotomy(a: bytes, b: bytes)
    ensures a == b || KeyLess(a, b) || KeyLess(b, a)
    ensures !(KeyLess(a, b) && KeyLess(b, a)) && !KeyLess(a, a)
  {
    if a != [] && b != [] && a[0] == b[0] {
      KeyLessTrichotomy(a[1..], b[1..]);
      assert a == [a[0]] + a[1..] && b == [b[0]] + b[1..];
    }
  }

  lemma KeyLessTransitive(a: bytes, b: bytes, c: bytes)
    requires KeyLess(a, b) && KeyLess(b, c)
    ensures KeyLess(a, c)
  {
    if a != [] && a[0] == b[0] == c[0] {
      KeyLessTransitive(a[1..], b[1..], c[1..]);
    }
  }

  /** The comparison qsort is given, as a strict order. */
  predicate Before(order: Order, a: Member, b: Member) {
    match order
    case AsStored => false
    case ByKey => KeyLess(a.key, b.key)
    case BySerial => a.serial < b.serial
  }

  predicate Sorted(order: Order, ms: seq<Member>) {
    forall i, j :: 0 <= i < j < |ms| ==> Before(order, ms[i], ms[j])
  }

  lemma BeforeTransitive(order: Order, a: Member, b: Member, c: Member)
    requires Before(order, a, b) && Before(order, b, c)
    ensures Before(order, a, c)
  {
    if order == ByKey {
      KeyLessTransitive(a.key, b.key, c.key);
    }
  }

  /** Members of a well-keyed object that are not the same are ordered one way and only one. */
  lemma BeforeTotal(order: Order, a: Member, b: Member)
    requires order != AsStored && a.key != b.key && a.serial != b.serial
    ensures Before(order, a, b) != Before(order, b, a)
  {
    KeyLessTrichotomy(a.key, b.key);
  }

  function Insert(order: Order, m: Member, ms: seq<Member>): (r: seq<Member>)
    ensures multiset(r) == multiset(ms) + multiset{m}
  {
    if ms == [] || Before(order, m, ms[0]) then
      [m] + ms
    else
      assert ms == [ms[0]] + ms[1..];
      [ms[0]] + Insert(order, m, ms[1..])
  }

  /** What qsort leaves in the key table. */
  function Arrange(order: Order, ms: seq<Member>): (r: seq<Member>)
    ensures multiset(r) == multiset(ms)
    ensures |r| == |ms|
  {
    if order == AsStored || ms == [] then ms
    else
      assert ms == [ms[0]] + ms[1..];
      var r := Insert(order, ms[0], Arrange(order, ms[1..]));
      assert |r| == |multiset(r)|;
      r
  }

  lemma SameMembers(a: seq<Member>, b: seq<Member>)
    requires multiset(a) == multiset(b)
    ensures forall m :: m in a <==> m in b
  {
    forall m
      ensures m in a <==> m in b
    {
      assert m in a <==> m in multiset(a);
    }
  }

  lemma {:induction false} InsertSorted(order: Order, m: Member, ms: seq<Member>)
    requires order != AsStored && Sorted(order, ms)
    requires forall i :: 0 <= i < |ms| ==> ms[i].key != m.key && ms[i].serial != m.serial
    ensures Sorted(order, Insert(order, m, ms))
  {
    var r := Insert(order, m, ms);
    if ms == [] {
    } else if Before(order, m, ms[0]) {
      forall j | 0 < j < |r|
        ensures Before(order, r[0], r[j])
      {
        if j > 1 {
          BeforeTransitive(order, m, ms[0], ms[j - 1]);
        }
      }
    } else {
      var t := Insert(order, m, ms[1..]);
      InsertSorted(order, m, ms[1..]);
      BeforeTotal(order, m, ms[0]);
      forall j | 0 <= j < |t|
        ensures Before(order, ms[0], t[j])
      {
        assert t[j] in multiset(t);
        if t[j] != m {
          assert t[j] in ms[1..];
        }
      }
    }
  }

  lemma {:induction false} ArrangeSorted(order: Order, ms: seq<Member>)
    requires order != AsStored && DistinctKeys(ms) && DistinctSerials(ms)
    ensures Sorted(order, Arrange(order, ms))
  {
    if ms != [] {
      var rest := Arrange(order, ms[1..]);
      ArrangeSorted(order, ms[1..]);
      SameMembers(rest, ms[1..]);
      forall i | 0 <= i < |rest|
        ensures rest[i].key != ms[0].key && rest[i].serial != ms[0].serial
      {
        assert rest[i] in ms[1..];
      }
      InsertSorted(order, ms[0], rest);
    }
  }

  /** A sorted arrangement is unique, so the sorting algorithm behind qsort does not matter. */
  lemma {:induction false} SortedUnique(order: Order, a: seq<Member>, b: seq<Member>)
    requires Sorted(order, a) && Sorted(order, b) && multiset(a) == multiset(b)
    ensures a == b
  {
    assert |a| == |multiset(a)| == |multiset(b)| == |b|;
    if a != [] {
      SameFirst(order, a, b);
      TailBag(a);
      TailBag(b);
      SortedUnique(order, a[1..], b[1..]);
      assert a == [a[0]] + a[1..] && b == [b[0]] + b[1..];
    }
  }

  lemma TailBag(a: seq<Member>)
    requires a != []
    ensures multiset(a[1..]) == multiset(a) - multiset{a[0]}
  {
    assert a == [a[0]] + a[1..];
  }

  lemma SameFirst(order: Order, a: seq<Member>, b: seq<Member>)
    requires Sorted(order, a) && Sorted(order, b) && multiset(a) == multiset(b)
    requires a != [] && b != []
    ensures a[0] == b[0]
  {
    SameMembers(a, b);
    assert a[0] in b && b[0] in a;
    FirstIsLeast(order, b, a[0]);
    FirstIsLeast(order, a, b[0]);
    if a[0] != b[0] {
      BeforeTransitive(order, a[0], b[0], a[0]);
      BeforeIrreflexive(order, a[0]);
    }
  }

  lemma FirstIsLeast(order: Order, ms: seq<Member>, m: Member)
    requires Sorted(order, ms) && m in ms
    ensures m == ms[0] || Before(order, ms[0], m)
  {
  }

  lemma BeforeIrreflexive(order: Order, a: Member)
    ensures !Before(order, a, a)
  {
    KeyLessTrichotomy(a.key, a.key);
  }

  /** Arranging keeps keys and serials distinct, and the map the members denote. */
  lemma ArrangeKeepsMap(order: Order, ms: seq<Member>)
    requires DistinctKeys(ms) && DistinctSerials(ms)
    ensures DistinctKeys(Arrange(order, ms)) && DistinctSerials(Arrange(order, ms))
    ensures MapOf(Arrange(order, ms)) == MapOf(ms)
  {
    var r := Arrange(order, ms);
    if order != AsStored {
      hide Arrange, MapOf, Meaning, Sorted;
      ArrangeSorted(order, ms);
      DistinctAfterSort(order, ms, r);
      SameMembers(r, ms);
      MapOfDistinct(ms);
      MapOfDistinct(r);
      SubMap(ms, r);
      SubMap(r, ms);
    }
  }

  lemma SubMap(ms: seq<Member>, r: seq<Member>)
    requires forall m :: m in ms ==> m in r
    requires forall i :: 0 <= i < |r| ==> r[i].key in MapOf(r) && MapOf(r)[r[i].key] == Meaning(r[i].value)
    requires forall i :: 0 <= i < |ms| ==> ms[i].key in MapOf(ms) && MapOf(ms)[ms[i].key] == Meaning(ms[i].value)
    ensures forall k :: k in MapOf(ms) ==> k in MapOf(r) && MapOf(r)[k] == MapOf(ms)[k]
  {
    forall k | k in MapOf(ms)
      ensures k in MapOf(r) && MapOf(r)[k] == MapOf(ms)[k]
    {
      assert HasKey(ms, k);
      var i :| 0 <= i < |ms| && ms[i].key == k;
      assert ms[i] in r;
      var j :| 0 <= j < |r| && r[j] == ms[i];
    }
  }

  lemma DistinctAfterSort(order: Order, ms: seq<Member>, r: seq<Member>)
    requires DistinctKeys(ms) && DistinctSerials(ms)
    requires order != AsStored && Sorted(order, r) && multiset(r) == multiset(ms)
    ensures DistinctKeys(r) && DistinctSerials(r)
  {
    forall i, j | 0 <= i < j < |r|
      ensures r[i].key != r[j].key && r[i].serial != r[j].serial
    {
      SameMembers(r, ms);
      assert r[i] in ms && r[j] in ms;
      BeforeIrreflexive(order, r[i]);
      assert r[i] != r[j];
    }
  }

  /** The key table given to qsort: keys and serials without values. */
  function KeyTable(ms: seq<Member>): (r: seq<Member>)
    ensures |r| == |ms|
    ensures forall i :: 0 <= i < |r| ==> r[i] == Member(ms[i].key, ms[i].serial, Null)
  {
    if ms == [] then [] else [Member(ms[0].key, ms[0].serial, Null)] + KeyTable(ms[1..])
  }

  lemma {:induction false} InsertKeys(order: Order, m: Member, ms: seq<Member>)
    ensures Insert(order, m.(value := Null), KeyTable(ms)) == KeyTable(Insert(order, m, ms))
  {
    if ms != [] && !Before(order, m, ms[0]) {
      InsertKeys(order, m, ms[1..]);
      assert KeyTable(ms)[1..] == KeyTable(ms[1..]);
      var r := Insert(order, m, ms[1..]);
      assert KeyTable([ms[0]] + r) == [KeyTable(ms)[0]] + KeyTable(r);
    } else {
      assert KeyTable([m] + ms) == [m.(value := Null)] + KeyTable(ms);
    }
  }

  /** Sorting the key table and sorting the members it was made from agree. */
  lemma {:induction false} ArrangeKeys(order: Order, ms: seq<Member>)
    ensures Arrange(order, KeyTable(ms)) == KeyTable(Arrange(order, ms))
  {
    if order != AsStored && ms != [] {
      ArrangeKeys(order, ms[1..]);
      assert KeyTable(ms)[1..] == KeyTable(ms[1..]);
      InsertKeys(order, ms[0], Arrange(order, ms[1..]));
    }
  }
}
