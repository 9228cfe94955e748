/** JSON arrays: a growing table of references (jansson-2.3/src/value.c:303-546). */
module JsonArrays {
  import opened Bytes

  /** array_copy: memcpy between two tables. */
  method ArrayCopy(dest: array<Handle>, dpos: nat, src: array<Handle>, spos: nat, count: nat)
    requires dpos + count <= dest.Length && spos + count <= src.Length
    requires dest == src ==> dpos + count <= spos || spos + count <= dpos
    modifies dest
    ensures forall i :: dpos <= i < dpos + count ==> dest[i] == old(src[spos + i - dpos])
    ensures forall i :: 0 <= i < dpos || dpos + count <= i < dest.Length ==> dest[i] == old(dest[i])
  {
    forall i | 0 <= i < count {
      dest[dpos + i] := src[spos + i];
    }
  }

  lemma MovedDown(before: seq<Handle>, after: seq<Handle>, index: nat)
    requires index < |before| && |after| == |before| - 1
    requires forall i :: 0 <= i < |after| ==> after[i] == before[if i < index then i else i + 1]
    ensures after == RemoveAt(before, index)
  {
  }

  class JsonArray {
    const self: Handle
    var table: array<Handle>
    var entries: nat
    var size: nat

    ghost predicate Valid()
      reads this
    {
      entries <= size == table.Length && size >= 8
    }

    ghost function Contents(): seq<Handle>
      requires Valid()
      reads this, table
    {
      table[..entries]
    }

    /** json_array */
    constructor (self: Handle)
      ensures Valid() && Contents() == [] && size == 8 && fresh(table) && this.self == self
    {
      this.self := self;
      entries, size := 0, 8;
      table := new Handle[8];
    }

    /** json_array_get */
    method Get(index: nat) returns (r: Option<Handle>)
      requires Valid()
      ensures r == if index < |Contents()| then Some(Contents()[index]) else None
    {
      if index >= entries {
        return None;
      }
      return Some(table[index]);
    }

    /** json_array_set_new; `dropped` is the value whose reference is given up. */
    method SetNew(index: nat, value: Option<Handle>) returns (rc: int, dropped: Option<Handle>)
      requires Valid()
      modifies table
      ensures Valid()
      ensures rc == if value.Some? && value.value != self && index < |old(Contents())| then 0 else -1
      ensures rc != 0 ==> Contents() == old(Contents()) && dropped == value
      ensures rc == 0 ==>
        Contents() == old(Contents())[index := value.value] && dropped == Some(old(Contents())[index])
    {
      if value == None {
        return -1, None;
      }
      if value.value == self {
        return -1, value;
      }
      if index >= entries {
        return -1, value;
      }
      dropped := Some(table[index]);
      table[index] := value.value;
      rc := 0;
    }

    /**
     * json_array_grow: room for `amount` more. The result is the table that still holds the elements, which is
     * the old one when a new one was needed and `copy` is false.
     */
    method Grow(amount: nat, copy: bool) returns (old_table: array<Handle>)
      requires Valid()
      modifies this`table, this`size
      ensures Valid() && entries + amount <= size
      ensures table == old(table) || fresh(table)
      ensures old_table == if copy then table else old(table)
      ensures old_table.Length >= entries && forall i :: 0 <= i < entries ==> old_table[i] == old(table[i])
      ensures table == old(table) <==> old(entries + amount <= size)
      ensures table != old(table) ==> size == if amount > old(size) then old(size) + amount else old(size) * 2
      ensures table == old(table) ==> size == old(size)
      ensures old(table)[..] == old(table[..])
    {
      if entries + amount <= size {
        return table;
      }
      old_table := table;
      var newSize := if size + amount > size * 2 then size + amount else size * 2;
      var newTable := new Handle[newSize];
      size := newSize;
      table := newTable;
      if copy {
        ArrayCopy(table, 0, old_table, 0, entries);
        return table;
      }
    }

    /** json_array_append_new */
    method AppendNew(value: Option<Handle>) returns (rc: int)
      requires Valid()
      modifies this, table
      ensures Valid() && (table == old(table) || fresh(table))
      ensures rc == if value.Some? && value.value != self then 0 else -1
      ensures Contents() == old(Contents()) + if rc == 0 then [value.value] else []
      ensures old(entries < size) ==> size == old(size)
    {
      if value == None {
        return -1;
      }
      if value.value == self {
        return -1;
      }
      var _ := Grow(1, true);
      table[entries] := value.value;
      entries := entries + 1;
      rc := 0;
    }

    /** json_array_insert_new: shifted in place, or spliced into the table just grown. */
    method InsertNew(index: nat, value: Option<Handle>) returns (rc: int)
      requires Valid()
      modifies this, table
      ensures Valid() && (table == old(table) || fresh(table))
      ensures rc == if value.Some? && value.value != self && index <= |old(Contents())| then 0 else -1
      ensures Contents() == if rc == 0 then InsertAt(old(Contents()), index, value.value) else old(Contents())
    {
      if value == None {
        return -1;
      }
      if value.value == self {
        return -1;
      }
      if index > entries {
        return -1;
      }
      ghost var s := Contents();
      MakeRoom(index);
      table[index] := value.value;
      entries := entries + 1;
      assert table[..entries] == InsertAt(s, index, value.value);
      rc := 0;
    }

    method MakeRoom(index: nat)
      requires Valid() && index <= entries
      modifies this`table, this`size, table
      ensures Valid() && (table == old(table) || fresh(table))
      ensures entries + 1 <= size
      ensures forall i :: 0 <= i < index ==> table[i] == old(table[i])
      ensures forall i :: index < i <= entries ==> table[i] == old(table[i - 1])
    {
      var old_table := Grow(1, false);
      if old_table != table {
        Splice(old_table, index);
      } else {
        var _ := Move(index + 1, index, entries - index);
      }
    }

    /** The elements of the old table go to the new one with a gap at `index`. */
    method Splice(old_table: array<Handle>, index: nat)
      requires Valid() && index <= entries < size && old_table != table && entries <= old_table.Length
      modifies table
      ensures forall i :: 0 <= i < index ==> table[i] == old_table[i]
      ensures forall i :: index < i <= entries ==> table[i] == old_table[i - 1]
    {
      ArrayCopy(table, 0, old_table, 0, index);
      ArrayCopy(table, index + 1, old_table, index, entries - index);
    }

    /**
     * array_move: memmove within the table. `inside` tells whether it read the table only; a read beyond the
     * end yields a value about which nothing is known.
     */
    method Move(dest: nat, src: nat, count: nat) returns (inside: bool)
      requires Valid() && dest + count <= size
      modifies table
      ensures inside <==> src + count <= size
      ensures forall i :: dest <= i < dest + count && src + i - dest < size ==> table[i] == old(table[src + i - dest])
      ensures forall i :: 0 <= i < dest || dest + count <= i < size ==> table[i] == old(table[i])
    {
      inside := src + count <= size;
      var beyond: Handle := *;
      forall i | 0 <= i < count {
        table[dest + i] := if src + i < size then table[src + i] else beyond;
      }
    }

    /**
     * json_array_remove: the elements after the removed one move down. The move takes in one slot beyond the
     * last element, which is inside the table exactly when the table is not full; the elements are right anyway.
     */
    method Remove(index: nat) returns (rc: int, dropped: Option<Handle>, inside: bool)
      requires Valid()
      modifies this, table
      ensures Valid() && table == old(table)
      ensures rc == if index < |old(Contents())| then 0 else -1
      ensures rc != 0 ==> Contents() == old(Contents()) && dropped == None && inside
      ensures rc == 0 ==> Contents() == RemoveAt(old(Contents()), index) && dropped == Some(old(Contents())[index])
      ensures rc == 0 ==> (inside <==> |old(Contents())| < size)
    {
      if index >= entries {
        return -1, None, true;
      }
      dropped := Some(table[index]);
      ghost var s := Contents();
      inside := Move(index, index + 1, entries - index);
      entries := entries - 1;
      MovedDown(s, table[..entries], index);
      rc := 0;
    }

    /** json_array_clear: the table keeps its size. */
    method Clear() returns (dropped: seq<Handle>)
      requires Valid()
      modifies this`entries
      ensures Valid() && Contents() == [] && dropped == old(Contents())
    {
      dropped := All();
      entries := 0;
    }

    /** The loops over the table that take or give up a reference to every element. */
    method All() returns (values: seq<Handle>)
      requires Valid()
      ensures values == Contents()
    {
      values := [];
      var i := 0;
      while i < entries
        invariant 0 <= i <= entries
        invariant values == table[..i]
      {
        values := values + [table[i]];
        i := i + 1;
      }
    }

    /** json_array_extend, also of an array with itself; `kept` are the values that gain a reference. */
    method Extend(other: JsonArray) returns (kept: seq<Handle>)
      requires Valid() && other.Valid() && (other != this ==> other.table != table)
      modifies this, table
      ensures Valid() && (table == old(table) || fresh(table))
      ensures kept == old(other.Contents()) && Contents() == old(Contents()) + kept
    {
      ghost var s, t := Contents(), other.Contents();
      var _ := Grow(other.entries, true);
      assert Contents() == s;
      assert other.Contents() == t;
      kept := other.All();
      Append(other);
    }

    /** The copy of the other table after the elements of this one. */
    method Append(other: JsonArray)
      requires Valid() && other.Valid() && entries + other.entries <= size && (other != this ==> other.table != table)
      modifies this`entries, table
      ensures Valid() && Contents() == old(Contents()) + old(other.Contents())
    {
      ghost var s, t := Contents(), other.Contents();
      ArrayCopy(table, entries, other.table, 0, other.entries);
      entries := entries + other.entries;
      assert table[..entries] == s + t;
    }
  }

  // ---- runs ----

  datatype Op =
    | AppendOp(value: Handle)
    | InsertOp(index: nat, value: Handle)
    | SetOp(index: nat, value: Handle)
    | RemoveOp(index: nat)
    | ExtendSelfOp
    | ExtendOtherOp
    | ClearOp

  /** An operation on one of two arrays. */
  datatype Action = First(op: Op) | Second(op: Op)

  /** What an operation does to a plain sequence, beside another one; out of range it does nothing. */
  function Apply(s: seq<Handle>, other: seq<Handle>, op: Op, self: Handle): seq<Handle> {
    match op
    case AppendOp(v) => if v == self then s else s + [v]
    case InsertOp(i, v) => if v == self || i > |s| then s else InsertAt(s, i, v)
    case SetOp(i, v) => if v == self || i >= |s| then s else s[i := v]
    case RemoveOp(i) => if i >= |s| then s else RemoveAt(s, i)
    case ExtendSelfOp => s + s
    case ExtendOtherOp => s + other
    case ClearOp => []
  }

  function ApplyAll(actions: seq<Action>, first: Handle, second: Handle): (seq<Handle>, seq<Handle>) {
    if actions == [] then ([], [])
    else
      var (s, t) := ApplyAll(actions[..|actions| - 1], first, second);
      match actions[|actions| - 1]
      case First(op) => (Apply(s, t, op, first), t)
      case Second(op) => (s, Apply(t, s, op, second))
  }

  /**
   * Any sequence of operations on two arrays, which may extend themselves and one another, leaves each holding the
   * sequence a plain sequence would hold.
   */
  method Run(actions: seq<Action>, first: Handle, second: Handle) returns (a: JsonArray, b: JsonArray)
    ensures a.Valid() && b.Valid() && (a.Contents(), b.Contents()) == ApplyAll(actions, first, second)
    ensures a.entries <= a.size && b.entries <= b.size
  {
    a := new JsonArray(first);
    b := new JsonArray(second);
    var i := 0;
    while i < |actions|
      invariant 0 <= i <= |actions|
      invariant a.Valid() && b.Valid() && a.self == first && b.self == second && a != b && a.table != b.table
      invariant (a.Contents(), b.Contents()) == ApplyAll(actions[..i], first, second)
      invariant fresh(a) && fresh(a.table) && fresh(b) && fresh(b.table)
    {
      match actions[i] {
        case First(op) => Step(a, b, op);
        case Second(op) => Step(b, a, op);
      }
      assert actions[..i + 1][..i] == actions[..i];
      i := i + 1;
    }
    assert actions[..i] == actions;
  }

  method Step(a: JsonArray, b: JsonArray, op: Op)
    requires a.Valid() && b.Valid() && a != b && a.table != b.table
    modifies a, a.table
    ensures a.Valid() && (a.table == old(a.table) || fresh(a.table)) && b.Valid() && b.Contents() == old(b.Contents())
    ensures a.Contents() == Apply(old(a.Contents()), old(b.Contents()), op, a.self)
  {
    match op
    case AppendOp(v) => var _ := a.AppendNew(Some(v));
    case InsertOp(i, v) => var _ := a.InsertNew(i, Some(v));
    case SetOp(i, v) => var _, _ := a.SetNew(i, Some(v));
    case RemoveOp(i) => var _, _, _ := a.Remove(i);
    case ExtendSelfOp => var _ := a.Extend(a);
    case ExtendOtherOp => var _ := a.Extend(b);
    case ClearOp => var _ := a.Clear();
  }

  /** Eight appends fill the first table, and then removing any element reads one slot beyond it. */
  method FullTable(values: seq<Handle>, self: Handle, index: nat) returns (a: JsonArray, inside: bool)
    requires |values| == 8 && self !in values && index < 8
    ensures !inside && a.Valid() && a.Contents() == RemoveAt(values, index)
  {
    a := new JsonArray(self);
    var i := 0;
    while i < 8
      invariant 0 <= i <= 8
      invariant a.Valid() && a.self == self && a.size == 8 && a.Contents() == values[..i]
      invariant fresh(a) && fresh(a.table)
    {
      var rc := a.AppendNew(Some(values[i]));
      i := i + 1;
    }
    assert values[..8] == values;
    var rc, dropped;
    rc, dropped, inside := a.Remove(index);
  }
}
