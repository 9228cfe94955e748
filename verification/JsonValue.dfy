/**
 * JSON values. A `Tree` is what a finite acyclic value graph looks like from its root: object members
 * come in hash-table order with their serials. A `Json` is what the tree means: objects are maps.
 */
module JsonValue {
  import opened Bytes

  const INT_MIN: int := -0x8000_0000_0000_0000
  const INT_MAX: int := 0x7FFF_FFFF_FFFF_FFFF

  datatype Tree =
    | Null
    | True
    | False
    | Integer(i: int)
    | Text(s: bytes)
    | Array(items: seq<Tree>)
    | Object(members: seq<Member>)

  datatype Member = Member(key: bytes, serial: nat, value: Tree)

  datatype Json =
    | JNull
    | JTrue
    | JFalse
    | JInt(i: int)
    | JReal(literal: bytes)
    | JText(s: bytes)
    | JArray(items: seq<Json>)
    | JObject(members: map<bytes, Json>)

  function Meaning(t: Tree): Json {
    match t
    case Null => JNull
    case True => JTrue
    case False => JFalse
    case Integer(i) => JInt(i)
    case Text(s) => JText(s)
    case Array(items) => JArray(Meanings(items))
    case Object(ms) => JObject(MapOf(ms))
  }

  function Meanings(ts: seq<Tree>): (r: seq<Json>)
    ensures |r| == |ts|
    ensures forall i :: 0 <= i < |ts| ==> r[i] == Meaning(ts[i])
  {
    if ts == [] then [] else Meanings(ts[..|ts| - 1]) + [Meaning(ts[|ts| - 1])]
  }

  /** The map a sequence of json_object_set calls builds: a later member wins. */
  function MapOf(ms: seq<Member>): (r: map<bytes, Json>)
    ensures forall k :: k in r <==> HasKey(ms, k)
  {
    if ms == [] then map[]
    else
      var last := ms[|ms| - 1];
      MapOf(ms[..|ms| - 1])[last.key := Meaning(last.value)]
  }

  predicate HasKey(ms: seq<Member>, k: bytes) {
    exists i :: 0 <= i < |ms| && ms[i].key == k
  }

  predicate DistinctKeys(ms: seq<Member>) {
    forall i, j :: 0 <= i < j < |ms| ==> ms[i].key != ms[j].key
  }

  predicate DistinctSerials(ms: seq<Member>) {
    forall i, j :: 0 <= i < j < |ms| ==> ms[i].serial != ms[j].serial
  }

  /** What the hash table guarantees of every object: keys and serials are pairwise distinct. */
  predicate WellKeyed(t: Tree) {
    match t
    case Array(items) => forall i :: 0 <= i < |items| ==> WellKeyed(items[i])
    case Object(ms) =>
      && DistinctKeys(ms)
      && DistinctSerials(ms)
      && forall i :: 0 <= i < |ms| ==> WellKeyed(ms[i].value)
    case _ => true
  }

  lemma {:induction false} MapOfDistinct(ms: seq<Member>)
    requires DistinctKeys(ms)
    ensures |MapOf(ms)| == |ms|
    ensures forall i :: 0 <= i < |ms| ==> ms[i].key in MapOf(ms) && MapOf(ms)[ms[i].key] == Meaning(ms[i].value)
  {
    if ms != [] {
      var init, last := ms[..|ms| - 1], ms[|ms| - 1];
      MapOfDistinct(init);
      assert !HasKey(init, last.key);
      forall i | 0 <= i < |ms|
        ensures ms[i].key in MapOf(ms) && MapOf(ms)[ms[i].key] == Meaning(ms[i].value)
      {
        if i < |ms| - 1 {
          assert ms[i] == init[i];
        }
      }
    }
  }
}
