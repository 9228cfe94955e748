/**
 * Whole runs of operations on JSON values, by a caller that passes nothing but references it owns and references
 * it has borrowed from those.
 */
module RefCountRuns {
  import opened Bytes
  import opened RefCounts

  /** A reference the caller owns, or with a path, what it borrows from there one slot after the other. */
  datatype Ref = Ref(handle: nat, path: seq<nat>)

  datatype Kind = NewLeaf | NewArray | NewObject

  datatype Singleton = True | False | Null

  datatype Op =
    | CreateOp(kind: Kind)
    | SingletonOp(which: Singleton)
    | IncRefOp(from: Ref)
    | DecRefOp(value: nat)
    | AppendOp(to: Ref, value: nat)
    | InsertOp(to: Ref, index: nat, value: nat)
    | SetOp(to: Ref, index: nat, value: nat)
    | RemoveOp(to: Ref, index: nat)
    | ClearOp(to: Ref)
    | ExtendOp(to: Ref, from: Ref)
    | SetMemberOp(to: Ref, key: bytes, value: nat)
    | DeleteMemberOp(to: Ref, key: bytes)
    | ClearMembersOp(to: Ref)

  /** The store, and the references the caller owns. */
  datatype State = State(cells: seq<Cell>, handles: seq<Id>)

  function Empty(kind: Kind): (p: Payload)
    ensures SlotsOf(p) == []
  {
    match kind
    case NewLeaf => Leaf
    case NewArray => Arr([])
    case NewObject => Obj([])
  }

  function Place(which: Singleton): Id {
    match which
    case True => 0
    case False => 1
    case Null => 2
  }

  function Follow(cells: seq<Cell>, v: Id, path: seq<nat>): Option<Id>
    decreases |path|
  {
    if path == [] then Some(v)
    else if v < |cells| && path[0] < |Slots(cells[v])| then Follow(cells, Slots(cells[v])[path[0]], path[1..])
    else None
  }

  /** None is NULL: there is no such reference. */
  function Find(s: State, r: Ref): Option<Id> {
    if r.handle < |s.handles| then Follow(s.cells, s.handles[r.handle], r.path) else None
  }

  predicate TakesValue(op: Op) {
    op.DecRefOp? || op.AppendOp? || op.InsertOp? || op.SetOp? || op.SetMemberOp?
  }

  function Given(s: State, op: Op): Option<Id> {
    if TakesValue(op) && op.value < |s.handles| then Some(s.handles[op.value]) else None
  }

  /** The reference given away is no longer the caller's, whether the operation succeeds or not. */
  function Left(handles: seq<Id>, op: Op): seq<Id> {
    if TakesValue(op) && op.value < |handles| then handles[..op.value] + handles[op.value + 1..] else handles
  }

  predicate IsArrayAt(cells: seq<Cell>, c: Option<Id>) {
    c.Some? && c.value < |cells| && IsArray(cells[c.value])
  }

  predicate IsObjectAt(cells: seq<Cell>, c: Option<Id>) {
    c.Some? && c.value < |cells| && IsObject(cells[c.value])
  }

  predicate Succeeds(s: State, op: Op) {
    match op
    case CreateOp(_) => true
    case SingletonOp(_) => true
    case IncRefOp(r) => Find(s, r).Some?
    case DecRefOp(_) => Given(s, op).Some?
    case AppendOp(to, _) => Given(s, op).Some? && IsArrayAt(s.cells, Find(s, to)) && Find(s, to) != Given(s, op)
    case InsertOp(to, index, _) =>
      && Given(s, op).Some? && IsArrayAt(s.cells, Find(s, to)) && Find(s, to) != Given(s, op)
      && index <= |s.cells[Find(s, to).value].payload.items|
    case SetOp(to, index, _) =>
      && Given(s, op).Some? && IsArrayAt(s.cells, Find(s, to)) && Find(s, to) != Given(s, op)
      && index < |s.cells[Find(s, to).value].payload.items|
    case RemoveOp(to, index) =>
      IsArrayAt(s.cells, Find(s, to)) && index < |s.cells[Find(s, to).value].payload.items|
    case ClearOp(to) => IsArrayAt(s.cells, Find(s, to))
    case ExtendOp(to, from) => IsArrayAt(s.cells, Find(s, to)) && IsArrayAt(s.cells, Find(s, from))
    case SetMemberOp(to, _, _) => Given(s, op).Some? && IsObjectAt(s.cells, Find(s, to)) && Find(s, to) != Given(s, op)
    case DeleteMemberOp(to, key) =>
      IsObjectAt(s.cells, Find(s, to)) && HasKey(s.cells[Find(s, to).value].payload.members, key)
    case ClearMembersOp(to) => IsObjectAt(s.cells, Find(s, to))
  }

  /** What success does to the values. Everything else may only be counted down or freed. */
  ghost predicate Done(s: State, op: Op, after: seq<Cell>)
    requires Succeeds(s, op)
  {
    match op
    case CreateOp(kind) => after == s.cells + [Live(1, Empty(kind))]
    case SingletonOp(_) => after == s.cells
    case IncRefOp(r) => Counted(s.cells, Find(s, r).value, after)
    case DecRefOp(_) => Shrunk(s.cells, after, Everything(|s.cells|))
    case ExtendOp(to, from) => Extended(s.cells, after, Find(s, to).value, Find(s, from).value)
    case SetMemberOp(to, key, _) =>
      var c := Find(s, to).value;
      && Members(s.cells, after, c)
      && WasSet(s.cells[c].payload.members, after[c].payload.members, key, Given(s, op).value)
    case DeleteMemberOp(to, key) =>
      var c := Find(s, to).value;
      Members(s.cells, after, c) && WasDeleted(s.cells[c].payload.members, after[c].payload.members, key)
    case ClearMembersOp(to) => Becomes(s.cells, after, Find(s, to).value, Obj([]))
    case _ =>
      var c := Find(s, op.to).value;
      Becomes(s.cells, after, c, Arr(Items(s.cells[c].payload.items, op, Given(s, op))))
  }

  function Items(items: seq<Id>, op: Op, v: Option<Id>): seq<Id>
    requires op.AppendOp? || op.InsertOp? || op.SetOp? ==> v.Some?
    requires op.InsertOp? ==> op.index <= |items|
    requires op.SetOp? || op.RemoveOp? ==> op.index < |items|
  {
    match op
    case AppendOp(_, _) => items + [v.value]
    case InsertOp(_, index, _) => items[..index] + [v.value] + items[index..]
    case SetOp(_, index, _) => items[index := v.value]
    case RemoveOp(_, index) => items[..index] + items[index + 1..]
    case _ => []
  }

  ghost predicate Counted(before: seq<Cell>, v: Id, after: seq<Cell>) {
    && v < |before|
    && after == before[v := match before[v] case Live(n, p) => Live(n + 1, p) case other => other]
  }

  ghost predicate Members(before: seq<Cell>, after: seq<Cell>, c: Id) {
    |after| == |before| && c < |after| && IsObject(after[c]) && Becomes(before, after, c, after[c].payload)
  }

  ghost predicate Extended(before: seq<Cell>, after: seq<Cell>, c: Id, d: Id)
    requires IsArrayAt(before, Some(c)) && IsArrayAt(before, Some(d))
  {
    && |after| == |before| && IsArray(after[c])
    && after[c].payload.items == before[c].payload.items + before[d].payload.items
    && forall i :: 0 <= i < |after| && i != c ==> SamePayload(before[i], after[i])
  }

  /** The references the caller owns afterwards. */
  function HandlesAfter(s: State, op: Op): seq<Id> {
    match op
    case CreateOp(_) => s.handles + [|s.cells|]
    case SingletonOp(which) => s.handles + [Place(which)]
    case IncRefOp(r) => if Find(s, r).Some? then s.handles + [Find(s, r).value] else s.handles
    case _ => Left(s.handles, op)
  }

  /** The result of an operation, and what it does to the values: on failure, one that was given away may go. */
  ghost predicate Result(s: State, op: Op, after: seq<Cell>, rc: int) {
    && rc == (if Succeeds(s, op) then 0 else -1)
    && if Succeeds(s, op) then Done(s, op, after)
       else if TakesValue(op) then Shrunk(s.cells, after, Everything(|s.cells|))
       else after == s.cells
  }

  /** One operation: its result, the values, and who owns what. */
  ghost predicate Step(s: State, op: Op, t: State, rc: int) {
    t.handles == HandlesAfter(s, op) && Result(s, op, t.cells, rc)
  }

  /** What a caller has to avoid: putting a value where it leads to itself. */
  ghost predicate Closes(s: State, op: Op) {
    && Succeeds(s, op)
    && match op
       case ExtendOp(to, from) =>
         exists k :: k in s.cells[Find(s, from).value].payload.items && Leads(s.cells, k, Find(s, to).value)
       case CreateOp(_) => false
       case SingletonOp(_) => false
       case IncRefOp(_) => false
       case DecRefOp(_) => false
       case RemoveOp(_, _) => false
       case ClearOp(_) => false
       case DeleteMemberOp(_, _) => false
       case ClearMembersOp(_) => false
       case _ => Leads(s.cells, Given(s, op).value, Find(s, op.to).value)
  }

  ghost predicate CycleIff(s: State, op: Op, after: seq<Cell>) {
    Acyclic(s.cells) ==> (Acyclic(after) <==> !Closes(s, op))
  }

  /** Conservation between two operations. */
  ghost predicate Sound(s: State) {
    Conserved(s.cells, multiset(s.handles)) && Settled(s.cells) && Statics(s.cells)
  }

  predicate Statics(cells: seq<Cell>) {
    |cells| >= 3 && cells[0] == Static && cells[1] == Static && cells[2] == Static
  }

  predicate AllFreed(cells: seq<Cell>) {
    forall v :: 0 <= v < |cells| ==> cells[v] == Freed || cells[v] == Static
  }

  /** What the caller can name it has hold of. */
  lemma FindRooted(s: State, r: Ref)
    requires Sound(s) && Find(s, r).Some?
    ensures Find(s, r).value < |s.cells| && Rooted(s.cells, multiset(s.handles), Find(s, r).value)
    ensures Alive(s.cells[Find(s, r).value])
  {
    var owned := multiset(s.handles);
    NotGone(s.cells, owned, s.handles[r.handle]);
    FollowRooted(s.cells, owned, s.handles[r.handle], r.path);
    RootedAlive(s.cells, owned, Find(s, r).value);
  }

  lemma {:induction false} FollowRooted(cells: seq<Cell>, owned: multiset<Id>, v: Id, path: seq<nat>)
    requires Conserved(cells, owned) && Rooted(cells, owned, v) && Follow(cells, v, path).Some?
    ensures Rooted(cells, owned, Follow(cells, v, path).value)
    decreases |path|
  {
    hide Rooted, Conserved;
    if path != [] {
      assert v < |cells|;
      var k := Slots(cells[v])[path[0]];
      RootedSlot(cells, owned, v, k);
      FollowRooted(cells, owned, k, path[1..]);
    }
  }

  lemma NothingShrunk(cells: seq<Cell>)
    ensures Shrunk(cells, cells, Everything(|cells|)) && KeptOn(cells, cells)
  {
  }

  lemma NewAcyclic(cells: seq<Cell>, owned: multiset<Id>, c: Cell)
    requires Conserved(cells, owned) && Slots(c) == []
    ensures Acyclic(cells) ==> Acyclic(cells + [c])
  {
    if Acyclic(cells) {
      var rank :| Ranked(cells, rank);
      assert Ranked(cells + [c], rank + [0]);
    }
  }

  lemma LeftBag(handles: seq<Id>, op: Op)
    ensures multiset(Left(handles, op)) == multiset(handles) - Stolen(Given(State([], handles), op))
  {
    if TakesValue(op) && op.value < |handles| {
      assert handles == handles[..op.value] + [handles[op.value]] + handles[op.value + 1..];
    }
  }

  lemma StaticsShrunk(before: seq<Cell>, after: seq<Cell>)
    requires Statics(before) && Shrunk(before, after, Everything(|before|))
    ensures Statics(after)
  {
    assert forall i :: 0 <= i < 3 ==> Shrinks(before[i], after[i], i in Everything(|before|));
  }

  lemma StaticsOthers(before: seq<Cell>, after: seq<Cell>, c: Id, p: Payload)
    requires Statics(before) && Becomes(before, after, c, p) && c < |before| && !before[c].Static?
    ensures Statics(after)
  {
    assert forall i :: 0 <= i < 3 ==> i != c && Shrinks(before[i], after[i], true);
  }

  /** The singletons stay what they are. */
  lemma StaticsStay(s: State, op: Op, after: seq<Cell>, rc: int)
    requires Statics(s.cells) && Result(s, op, after, rc) && !op.CreateOp? && !op.SingletonOp? && !op.IncRefOp?
    ensures Statics(after)
  {
    hide Becomes, Shrunk;
    if !Succeeds(s, op) && !TakesValue(op) {
      assert after == s.cells;
    } else if !Succeeds(s, op) || op.DecRefOp? {
      StaticsShrunk(s.cells, after);
    } else if op.ExtendOp? {
      var c := Find(s, op.to).value;
      assert forall i :: 0 <= i < 3 ==> i != c && SamePayload(s.cells[i], after[i]);
    } else {
      var c := Find(s, op.to).value;
      var p :| Becomes(s.cells, after, c, p);
      StaticsOthers(s.cells, after, c, p);
    }
  }

  lemma NothingOwned(s: State, op: Op)
    requires op.IncRefOp? && Find(s, op.from) == None
    ensures Step(s, op, s, -1) && CycleIff(s, op, s.cells)
  {
  }

  lemma MayOwn(s: State, op: Op, v: Id)
    requires Sound(s)
    requires (op.SingletonOp? && v == Place(op.which)) || (op.IncRefOp? && Find(s, op.from) == Some(v))
    ensures Conserved(s.cells, multiset(s.handles)) && v < |s.cells| && (s.cells[v].Live? || s.cells[v].Static?)
  {
    if op.IncRefOp? {
      FindRooted(s, op.from);
    }
  }

  lemma OneOwned(s: State, op: Op, v: Id, after: seq<Cell>)
    requires Sound(s) && Counted(s.cells, v, after) && Conserved(after, multiset(s.handles) + multiset{v})
    requires (op.SingletonOp? && v == Place(op.which)) || (op.IncRefOp? && Find(s, op.from) == Some(v))
    ensures Sound(State(after, s.handles + [v])) && Step(s, op, State(after, s.handles + [v]), 0)
    ensures CycleIff(s, op, after)
  {
    hide Conserved, Acyclic;
    assert multiset(s.handles + [v]) == multiset(s.handles) + multiset{v};
    StillAcyclic(s.cells, after);
    StillAcyclic(after, s.cells);
  }

  /** After an operation on a container. */
  lemma Settles(s: State, op: Op, after: seq<Cell>, rc: int)
    requires Sound(s) && Result(s, op, after, rc) && !op.CreateOp? && !op.SingletonOp? && !op.IncRefOp?
    requires Conserved(after, multiset(s.handles) - Stolen(Given(s, op))) && Settled(after)
    ensures multiset(Left(s.handles, op)) == multiset(s.handles) - Stolen(Given(s, op))
    ensures Sound(State(after, Left(s.handles, op))) && Step(s, op, State(after, Left(s.handles, op)), rc)
  {
    hide Conserved, Result, Settled;
    LeftBag(s.handles, op);
    StaticsStay(s, op, after, rc);
  }

  /** A caller, with the references it owns. */
  class Client {
    const store: Store
    var handles: seq<Id>

    ghost function Now(): State
      reads this, store
    {
      State(store.cells, handles)
    }

    ghost predicate Valid()
      reads this, store
    {
      store.owned == multiset(handles) && Sound(Now())
    }

    constructor ()
      ensures Valid() && fresh(store) && Now() == State([Static, Static, Static], []) && Acyclic(store.cells)
    {
      store := new Store();
      handles := [];
      new;
      assert Ranked(store.cells, [0, 0, 0]);
    }

    method Apply(op: Op) returns (rc: int)
      requires Valid()
      modifies this, store
      ensures Valid() && Step(old(Now()), op, Now(), rc) && CycleIff(old(Now()), op, store.cells)
    {
      hide *;
      match op
      case CreateOp(_) => rc := Create(op);
      case SingletonOp(_) => rc := OneMore(op);
      case IncRefOp(_) => rc := OneMore(op);
      case DecRefOp(_) => rc := Give(op);
      case _ => rc := Put(op);
    }

    /** A new value. */
    method Create(op: Op) returns (rc: int)
      requires Valid() && op.CreateOp?
      modifies this, store
      ensures Valid() && Step(old(Now()), op, Now(), rc) && CycleIff(old(Now()), op, store.cells)
    {
      hide Conserved, Acyclic, Settled;
      ghost var s := Now();
      var v := store.Create(Empty(op.kind));
      handles := handles + [v];
      NewAcyclic(s.cells, multiset(s.handles), Live(1, Empty(op.kind)));
      rc := 0;
    }

    /** A singleton, or one more reference: json_incref does nothing with NULL. */
    method OneMore(op: Op) returns (rc: int)
      requires Valid() && (op.SingletonOp? || op.IncRefOp?)
      modifies this, store
      ensures Valid() && Step(old(Now()), op, Now(), rc) && CycleIff(old(Now()), op, store.cells)
    {
      hide Conserved, Find, Sound, Step, CycleIff, Settled, Alive;
      ghost var s := Now();
      var v := if op.SingletonOp? then Some(Place(op.which)) else Find(State(store.cells, handles), op.from);
      if v == None {
        NothingOwned(s, op);
        return -1;
      }
      MayOwn(s, op, v.value);
      store.IncRef(v.value);
      handles := handles + [v.value];
      OneOwned(s, op, v.value, store.cells);
      rc := 0;
    }

    /** json_decref, of NULL too. */
    method Give(op: Op) returns (rc: int)
      requires Valid() && op.DecRefOp?
      modifies this, store
      ensures Valid() && Step(old(Now()), op, Now(), rc) && CycleIff(old(Now()), op, store.cells)
      ensures KeptOn(old(store.cells), store.cells)
    {
      hide Conserved, ClosedUnder, Acyclic, KeptOn, Leads;
      ghost var s := Now();
      if op.value >= |handles| {
        NothingShrunk(s.cells);
        return -1;
      }
      LeftBag(handles, op);
      ghost var all := Everything(|store.cells|);
      AllClosed(store.cells, store.owned);
      NotGone(store.cells, store.owned, handles[op.value]);
      store.DecRef(handles[op.value], all);
      handles := handles[..op.value] + handles[op.value + 1..];
      ShrunkFacts(s.cells, store.cells, all);
      StillAcyclic(s.cells, store.cells);
      StaticsShrunk(s.cells, store.cells);
      rc := 0;
    }

    /** An operation on a container; the caller keeps what it does not give away. */
    method Put(op: Op) returns (rc: int)
      requires Valid() && !op.CreateOp? && !op.SingletonOp? && !op.IncRefOp? && !op.DecRefOp?
      modifies this, store
      ensures Valid() && Step(old(Now()), op, Now(), rc) && CycleIff(old(Now()), op, store.cells)
    {
      hide Conserved, CycleIff, Result, Settled, Step, Rooted, Find, Left;
      ghost var s := Now();
      var to := Find(State(store.cells, handles), op.to);
      if to == None {
        rc := PutNowhere(op);
      } else if op.AppendOp? || op.InsertOp? {
        FindRooted(s, op.to);
        rc := Insert(op, to.value);
      } else if op.SetOp? || op.SetMemberOp? {
        FindRooted(s, op.to);
        rc := Replace(op, to.value);
      } else {
        FindRooted(s, op.to);
        rc := TakeOut(op, to.value);
        assert multiset(s.handles) - multiset{} == multiset(s.handles);
      }
      Settles(s, op, store.cells, rc);
      handles := Left(handles, op);
    }

    /** The container is NULL. */
    method PutNowhere(op: Op) returns (rc: int)
      requires Valid() && !op.CreateOp? && !op.SingletonOp? && !op.IncRefOp? && !op.DecRefOp?
      requires Find(Now(), op.to) == None
      modifies store
      ensures store.Valid() && store.owned == old(store.owned) - Stolen(Given(old(Now()), op))
      ensures Result(old(Now()), op, store.cells, rc) && CycleIff(old(Now()), op, store.cells)
    {
      hide Conserved, Acyclic, Shrunk, Leads;
      store.Reject(Given(State(store.cells, handles), op));
      rc := -1;
    }

    method Insert(op: Op, c: Id) returns (rc: int)
      requires Valid() && (op.AppendOp? || op.InsertOp?)
      requires Find(Now(), op.to) == Some(c) && c < |store.cells| && Rooted(store.cells, store.owned, c)
      modifies store
      ensures store.Valid() && store.owned == old(store.owned) - Stolen(Given(old(Now()), op))
      ensures Result(old(Now()), op, store.cells, rc) && CycleIff(old(Now()), op, store.cells)
    {
      hide Conserved, Acyclic, Shrunk, Leads, Rooted, OnCycle, Find, Settled, Statics;
      var value := Given(State(store.cells, handles), op);
      ghost var was := store.cells;
      if op.AppendOp? {
        rc := store.ArrayAppendNew(c, value);
      } else {
        rc := store.ArrayInsertNew(c, op.index, value);
      }
      if rc == 0 {
        OnlyOne(was, c, store.cells[c]);
      }
    }

    method Replace(op: Op, c: Id) returns (rc: int)
      requires Valid() && (op.SetOp? || op.SetMemberOp?)
      requires Find(Now(), op.to) == Some(c) && c < |store.cells| && Rooted(store.cells, store.owned, c)
      modifies store
      ensures store.Valid() && store.owned == old(store.owned) - Stolen(Given(old(Now()), op))
      ensures Result(old(Now()), op, store.cells, rc) && CycleIff(old(Now()), op, store.cells)
    {
      hide Conserved, Acyclic, Shrunk, Leads, Rooted, OnCycle, Find, Settled, Statics;
      var value := Given(State(store.cells, handles), op);
      if op.SetOp? {
        rc := store.ArraySetNew(c, op.index, value);
      } else {
        rc := store.ObjectSetNew(c, op.key, value);
      }
    }

    method TakeOut(op: Op, c: Id) returns (rc: int)
      requires Valid()
      requires op.RemoveOp? || op.ClearOp? || op.DeleteMemberOp? || op.ClearMembersOp? || op.ExtendOp?
      requires Find(Now(), op.to) == Some(c) && c < |store.cells| && Rooted(store.cells, store.owned, c)
      modifies store
      ensures store.Valid() && store.owned == old(store.owned)
      ensures Result(old(Now()), op, store.cells, rc) && CycleIff(old(Now()), op, store.cells)
    {
      hide Conserved, Acyclic, Shrunk, Leads, Rooted, OnCycle, KeptOn;
      match op
      case RemoveOp(_, index) => rc := store.ArrayRemove(c, index);
      case ClearOp(_) => rc := store.ArrayClear(c);
      case DeleteMemberOp(_, key) => rc := store.ObjectDel(c, key);
      case ClearMembersOp(_) => rc := store.ObjectClear(c);
      case ExtendOp(_, from) =>
        var d := Find(State(store.cells, handles), from);
        if d == None {
          return -1;
        }
        FindRooted(Now(), from);
        rc := store.ArrayExtend(c, d.value);
    }

    /**
     * Any sequence of operations: `trace` are the states in between, each sound and each the result of its
     * operation. Without an operation that closes a cycle the values stay acyclic, and an acyclic store becomes
     * cyclic with exactly such an operation.
     */
    method Run(ops: seq<Op>) returns (rcs: seq<int>, ghost trace: seq<State>)
      requires Valid()
      modifies this, store
      ensures Valid() && |rcs| == |ops| && |trace| == |ops| + 1 && trace[0] == old(Now()) && trace[|ops|] == Now()
      ensures forall i :: 0 <= i < |ops| ==> Step(trace[i], ops[i], trace[i + 1], rcs[i])
      ensures forall i :: 0 <= i < |trace| ==> Sound(trace[i])
      ensures forall i :: 0 <= i < |ops| ==> CycleIff(trace[i], ops[i], trace[i + 1].cells)
    {
      hide Step, Sound, CycleIff;
      rcs, trace := [], [Now()];
      var i := 0;
      while i < |ops|
        invariant 0 <= i <= |ops| && Valid() && |rcs| == i && |trace| == i + 1
        invariant trace[0] == old(Now()) && trace[i] == Now()
        invariant forall k :: 0 <= k < i ==> Step(trace[k], ops[k], trace[k + 1], rcs[k])
        invariant forall k :: 0 <= k <= i ==> Sound(trace[k])
        invariant forall k :: 0 <= k < i ==> CycleIff(trace[k], ops[k], trace[k + 1].cells)
      {
        var rc := Apply(ops[i]);
        rcs, trace := rcs + [rc], trace + [Now()];
        i := i + 1;
      }
    }

    /** The caller gives up everything it owns. All values are freed if and only if there is no cycle. */
    method Finish()
      requires Valid()
      modifies this, store
      ensures Valid() && handles == [] && |store.cells| == |old(store.cells)|
      ensures AllFreed(store.cells) <==> Acyclic(old(store.cells))
    {
      hide Sound, CycleIff, Step, Acyclic, AllFreed, KeptOn;
      ghost var was, cells := Now(), store.cells;
      NothingShrunk(cells);
      while handles != []
        invariant Valid() && |store.cells| == |cells|
        invariant KeptOn(cells, store.cells) && (Acyclic(cells) ==> Acyclic(store.cells))
        decreases |handles|
      {
        ghost var s := Now();
        var rc := Give(DecRefOp(0));
        GaveFirst(s, Now(), rc);
        KeptTwice(cells, s.cells, store.cells);
      }
      FreedIff(was, Now());
    }
  }

  /** A run that closes no cycle keeps the values acyclic. */
  lemma {:induction false} RunAcyclic(ops: seq<Op>, trace: seq<State>)
    requires |trace| == |ops| + 1 && Acyclic(trace[0].cells)
    requires forall i :: 0 <= i < |ops| ==> CycleIff(trace[i], ops[i], trace[i + 1].cells) && !Closes(trace[i], ops[i])
    ensures Acyclic(trace[|ops|].cells)
    decreases |ops|
  {
    hide Acyclic, Closes;
    if ops != [] {
      var n := |ops| - 1;
      RunAcyclic(ops[..n], trace[..n + 1]);
      assert CycleIff(trace[n], ops[n], trace[n + 1].cells);
    }
  }

  lemma GaveFirst(s: State, t: State, rc: int)
    requires Step(s, DecRefOp(0), t, rc) && CycleIff(s, DecRefOp(0), t.cells) && s.handles != []
    ensures t.handles == s.handles[1..] && |t.cells| == |s.cells| && (Acyclic(s.cells) ==> Acyclic(t.cells))
  {
  }

  /** A cycle keeps itself alive when everything else is given up. */
  lemma CycleLives(before: seq<Cell>, after: seq<Cell>, c: Id)
    requires OnCycle(before, c) && Settled(before) && KeptOn(before, after)
    ensures c < |after| && after[c].Live?
  {
    var kept := CycleKept(before, c);
    assert HeldWithin(after, kept, c);
  }

  lemma FreedIff(was: State, s: State)
    requires Sound(was) && Sound(s) && s.handles == [] && |s.cells| == |was.cells|
    requires KeptOn(was.cells, s.cells) && (Acyclic(was.cells) ==> Acyclic(s.cells))
    ensures AllFreed(s.cells) <==> Acyclic(was.cells)
  {
    var before := was.cells;
    assert multiset(s.handles) == multiset{};
    if Acyclic(before) {
      NoLeak(s.cells);
    }
    if AllFreed(s.cells) {
      forall c | 0 <= c < |before|
        ensures !OnCycle(before, c)
      {
        if OnCycle(before, c) {
          CycleLives(before, s.cells, c);
          assert false;
        }
      }
      OffAcyclic(before);
    }
  }

  /** A whole program: it runs, then gives up what it owns. It leaks if and only if it leaves a cycle behind. */
  method Session(ops: seq<Op>) returns (client: Client, rcs: seq<int>, ghost trace: seq<State>)
    ensures client.Valid() && client.handles == [] && |rcs| == |ops| && |trace| == |ops| + 1
    ensures trace[0] == State([Static, Static, Static], [])
    ensures forall i :: 0 <= i < |ops| ==> Step(trace[i], ops[i], trace[i + 1], rcs[i])
    ensures forall i :: 0 <= i < |trace| ==> Sound(trace[i])
    ensures AllFreed(client.store.cells) <==> Acyclic(trace[|ops|].cells)
    ensures (forall i :: 0 <= i < |ops| ==> !Closes(trace[i], ops[i])) ==> AllFreed(client.store.cells)
  {
    hide Step, Sound, CycleIff, Closes, Acyclic, AllFreed;
    client := new Client();
    rcs, trace := client.Run(ops);
    client.Finish();
    if forall i :: 0 <= i < |ops| ==> !Closes(trace[i], ops[i]) {
      RunAcyclic(ops, trace);
    }
  }
}
