/**
 * Reference counts of the value graph: json_incref, json_decref with its cascade of deletions, and the container
 * operations that take and give up references (jansson-2.3/src/jansson.h:91-107, value.c, hashtable.c).
 */
module RefCounts {
  import opened Bytes

  /** A json_t pointer: a position in the store. */
  type Id = nat

  datatype Pair = Pair(key: bytes, value: Id)

  datatype Payload =
    | Leaf
    | Arr(items: seq<Id>)
    | Obj(members: seq<Pair>)   // in hash-table order

  datatype Cell =
    | Static                                      // true, false, null: refcount (size_t)-1
    | Live(refcount: nat, payload: Payload)
    | Dying(rest: seq<Id>)                        // in json_delete, with these slots still to give up
    | Freed

  function Values(members: seq<Pair>): (r: seq<Id>)
    ensures |r| == |members| && forall i :: 0 <= i < |r| ==> r[i] == members[i].value
  {
    if members == [] then [] else [members[0].value] + Values(members[1..])
  }

  function SlotsOf(p: Payload): seq<Id> {
    match p
    case Leaf => []
    case Arr(items) => items
    case Obj(members) => Values(members)
  }

  /** The references a cell holds. */
  function Slots(c: Cell): seq<Id> {
    match c
    case Live(_, p) => SlotsOf(p)
    case Dying(rest) => rest
    case _ => []
  }

  /** How many slots of a cell hold `v`. */
  function Occurs(c: Cell, v: Id): nat {
    multiset(Slots(c))[v]
  }

  /** How many slots of all cells hold `v`. */
  function Held(cells: seq<Cell>, v: Id): nat {
    if cells == [] then 0 else Held(cells[..|cells| - 1], v) + Occurs(cells[|cells| - 1], v)
  }

  lemma {:induction false} HeldUpdate(cells: seq<Cell>, i: nat, c: Cell, v: Id)
    requires i < |cells|
    ensures Held(cells[i := c], v) == Held(cells, v) - Occurs(cells[i], v) + Occurs(c, v)
    decreases |cells|
  {
    hide Occurs;
    var n := |cells| - 1;
    if i == n {
      assert cells[i := c][..n] == cells[..n];
    } else {
      HeldUpdate(cells[..n], i, c, v);
      assert cells[i := c][..n] == cells[..n][i := c];
    }
  }

  lemma HeldSlot(cells: seq<Cell>, i: nat, v: Id)
    requires i < |cells| && v in Slots(cells[i])
    ensures Held(cells, v) > 0
  {
    HeldUpdate(cells, i, Freed, v);
  }

  lemma {:induction false} HeldBy(cells: seq<Cell>, v: Id)
    requires Held(cells, v) > 0
    ensures exists i :: 0 <= i < |cells| && v in Slots(cells[i])
  {
    var n := |cells| - 1;
    if Held(cells[..n], v) > 0 {
      HeldBy(cells[..n], v);
      var i :| 0 <= i < n && v in Slots(cells[..n][i]);
      assert v in Slots(cells[i]);
    } else {
      assert v in Slots(cells[n]);
    }
  }

  /**
   * Conservation: every count is the number of slots holding the value plus the references owned outside, no
   * live value has count zero, and nothing refers to a value that is freed or being freed.
   */
  ghost predicate Conserved(cells: seq<Cell>, owned: multiset<Id>) {
    && (forall i, k :: 0 <= i < |cells| && k in Slots(cells[i]) ==> k < |cells|)
    && (forall v :: v in owned ==> v < |cells|)
    && forall v :: 0 <= v < |cells| ==> Balanced(cells, owned, v)
  }

  predicate Balanced(cells: seq<Cell>, owned: multiset<Id>, v: Id)
    requires v < |cells|
  {
    Counted(cells[v], Held(cells, v) + owned[v])
  }

  predicate Counted(c: Cell, n: int) {
    match c
    case Static => true
    case Live(refcount, _) => refcount == n > 0
    case _ => n == 0
  }

  /** No deletion is under way. */
  predicate Settled(cells: seq<Cell>) {
    forall v :: 0 <= v < |cells| ==> !cells[v].Dying?
  }

  function LiveCount(cells: seq<Cell>): nat {
    if cells == [] then 0 else LiveCount(cells[..|cells| - 1]) + if cells[|cells| - 1].Live? then 1 else 0
  }

  lemma {:induction false} LiveCountUpdate(cells: seq<Cell>, i: nat, c: Cell)
    requires i < |cells|
    ensures LiveCount(cells[i := c]) ==
      LiveCount(cells) - (if cells[i].Live? then 1 else 0) + (if c.Live? then 1 else 0)
    decreases |cells|
  {
    var n := |cells| - 1;
    if i == n {
      assert cells[i := c][..n] == cells[..n];
    } else {
      LiveCountUpdate(cells[..n], i, c);
      assert cells[i := c][..n] == cells[..n][i := c];
    }
  }

  /** Every reference held inside `s` leads into `s`. */
  ghost predicate ClosedUnder(cells: seq<Cell>, s: set<Id>) {
    forall i, k :: 0 <= i < |cells| && i in s && k in Slots(cells[i]) ==> k in s
  }

  /** What giving up references can do to a cell: nothing outside `s`; inside, count down or free. */
  predicate Shrinks(b: Cell, a: Cell, inside: bool) {
    || a == b
    || (inside && b.Live? && (a == Freed || (a.Live? && a.payload == b.payload)))
  }

  ghost predicate Shrunk(before: seq<Cell>, after: seq<Cell>, s: set<Id>) {
    && |before| == |after|
    && forall i :: 0 <= i < |before| ==> Shrinks(before[i], after[i], i in s)
  }

  lemma ShrunkClosed(before: seq<Cell>, after: seq<Cell>, s: set<Id>, t: set<Id>)
    requires Shrunk(before, after, s) && ClosedUnder(before, t)
    ensures ClosedUnder(after, t)
  {
    forall i, k | 0 <= i < |after| && i in t && k in Slots(after[i])
      ensures k in t
    {
      assert Shrinks(before[i], after[i], i in s);
    }
  }

  // ---- one step at a time ----

  lemma RebalanceAt(cells: seq<Cell>, owned: multiset<Id>, i: nat, c: Cell, owned': multiset<Id>, v: Id)
    requires i < |cells| && v < |cells| && Balanced(cells, owned, v)
    requires v != i ==> Occurs(c, v) + owned'[v] == Occurs(cells[i], v) + owned[v]
    requires v == i ==> Counted(c, Held(cells, i) - Occurs(cells[i], i) + Occurs(c, i) + owned'[i])
    ensures Balanced(cells[i := c], owned', v)
  {
    hide Held, Occurs, Counted;
    HeldUpdate(cells, i, c, v);
    if v != i {
      assert Held(cells[i := c], v) + owned'[v] == Held(cells, v) + owned[v];
      assert cells[i := c][v] == cells[v];
    } else {
      assert Held(cells[i := c], i) + owned'[i] == Held(cells, i) - Occurs(cells[i], i) + Occurs(c, i) + owned'[i];
    }
  }

  /** Changing one cell, the owned references making up for the slots. */
  lemma Rebalance(cells: seq<Cell>, owned: multiset<Id>, i: nat, c: Cell, owned': multiset<Id>)
    requires Conserved(cells, owned) && i < |cells|
    requires forall k :: k in Slots(c) || k in owned' ==> k < |cells|
    requires forall v :: 0 <= v < |cells| && v != i ==> Occurs(c, v) + owned'[v] == Occurs(cells[i], v) + owned[v]
    requires Counted(c, Held(cells, i) - Occurs(cells[i], i) + Occurs(c, i) + owned'[i])
    ensures Conserved(cells[i := c], owned')
  {
    hide Balanced, Counted, Occurs, Held, Slots;
    var after := cells[i := c];
    forall v | 0 <= v < |cells|
      ensures Balanced(after, owned', v)
    {
      assert Balanced(cells, owned, v);
      RebalanceAt(cells, owned, i, c, owned', v);
    }
    forall j, k | 0 <= j < |after| && k in Slots(after[j])
      ensures k < |after|
    {
      assert j != i ==> after[j] == cells[j];
    }
  }

  /** Giving up one outside reference, with the count going down or the deletion starting. */
  lemma CountDown(cells: seq<Cell>, owned: multiset<Id>, v: Id)
    requires Conserved(cells, owned) && v in owned && cells[v].Live?
    ensures var p := cells[v].payload;
      var c := if cells[v].refcount > 1 then Live(cells[v].refcount - 1, p) else Dying(SlotsOf(p));
      Conserved(cells[v := c], owned - multiset{v})
  {
    var p := cells[v].payload;
    var c := if cells[v].refcount > 1 then Live(cells[v].refcount - 1, p) else Dying(SlotsOf(p));
    assert Balanced(cells, owned, v) && Slots(c) == Slots(cells[v]);
    Rebalance(cells, owned, v, c, owned - multiset{v});
  }

  lemma Facts(cells: seq<Cell>, owned: multiset<Id>, i: nat)
    requires Conserved(cells, owned) && i < |cells|
    ensures Balanced(cells, owned, i)
    ensures forall k :: k in Slots(cells[i]) ==> k < |cells|
    ensures forall k :: k in owned ==> k < |cells|
  {
  }

  /** A slot given up becomes an outside reference. */
  lemma SlotOut(cells: seq<Cell>, owned: multiset<Id>, i: nat, c: Cell, x: Id)
    requires Conserved(cells, owned) && i < |cells|
    requires multiset(Slots(cells[i])) == multiset(Slots(c)) + multiset{x}
    requires (cells[i].Dying? && c.Dying?) || (cells[i].Live? && c.Live? && cells[i].refcount == c.refcount)
    ensures Conserved(cells[i := c], owned + multiset{x})
  {
    hide Conserved, Held, Slots;
    Facts(cells, owned, i);
    SameBag(Slots(cells[i]), Slots(c), multiset{x});
    Rebalance(cells, owned, i, c, owned + multiset{x});
  }

  lemma SameBag(s: seq<Id>, t: seq<Id>, more: multiset<Id>)
    requires multiset(s) == multiset(t) + more
    ensures forall k :: k in s <==> k in t || k in more
  {
    forall k
      ensures k in s <==> k in t || k in more
    {
      assert k in s <==> k in multiset(s);
      assert k in t <==> k in multiset(t);
    }
  }

  /** Outside references put into slots. */
  lemma SlotsIn(cells: seq<Cell>, owned: multiset<Id>, i: nat, c: Cell, xs: multiset<Id>)
    requires Conserved(cells, owned) && i < |cells| && xs <= owned
    requires multiset(Slots(c)) == multiset(Slots(cells[i])) + xs
    requires cells[i].Live? && c.Live? && cells[i].refcount == c.refcount
    ensures Conserved(cells[i := c], owned - xs)
  {
    hide Conserved, Held, Slots;
    Facts(cells, owned, i);
    SameBag(Slots(c), Slots(cells[i]), xs);
    Rebalance(cells, owned, i, c, owned - xs);
  }

  /** A cell without references can be freed. */
  lemma SetFree(cells: seq<Cell>, owned: multiset<Id>, i: nat)
    requires Conserved(cells, owned) && i < |cells| && cells[i] == Dying([])
    ensures Conserved(cells[i := Freed], owned)
  {
    assert Balanced(cells, owned, i);
    Rebalance(cells, owned, i, Freed, owned);
  }

  lemma CountUp(cells: seq<Cell>, owned: multiset<Id>, v: Id)
    requires Conserved(cells, owned) && v < |cells| && cells[v].Live?
    ensures Conserved(cells[v := cells[v].(refcount := cells[v].refcount + 1)], owned + multiset{v})
  {
    var c := cells[v].(refcount := cells[v].refcount + 1);
    assert Balanced(cells, owned, v) && Slots(c) == Slots(cells[v]);
    Rebalance(cells, owned, v, c, owned + multiset{v});
  }

  lemma AddCell(cells: seq<Cell>, owned: multiset<Id>, p: Payload)
    requires Conserved(cells, owned) && SlotsOf(p) == []
    ensures Conserved(cells + [Live(1, p)], owned + multiset{|cells|})
  {
    var after := cells + [Live(1, p)];
    assert after[..|cells|] == cells;
    forall v
      ensures Held(after, v) == Held(cells, v)
    {
    }
    if Held(cells, |cells|) > 0 {
      HeldBy(cells, |cells|);
    }
    forall v | 0 <= v < |after|
      ensures Balanced(after, owned + multiset{|cells|}, v)
    {
      assert v < |cells| ==> Balanced(cells, owned, v);
    }
  }

  // ---- acyclic stores ----

  ghost predicate Ranked(cells: seq<Cell>, rank: seq<nat>) {
    && |rank| == |cells|
    && forall i, k :: 0 <= i < |cells| && k in Slots(cells[i]) && k < |cells| ==> rank[k] < rank[i]
  }

  /** No value is reachable from itself: containers stand above what they hold. */
  ghost predicate Acyclic(cells: seq<Cell>) {
    exists rank :: Ranked(cells, rank)
  }

  /** `after` holds no reference that `before` does not. */
  ghost predicate Fewer(before: seq<Cell>, after: seq<Cell>) {
    && |after| == |before|
    && forall i, k :: 0 <= i < |after| && k in Slots(after[i]) ==> k in Slots(before[i])
  }

  lemma FewerAcyclic(before: seq<Cell>, after: seq<Cell>)
    requires Acyclic(before) && Fewer(before, after)
    ensures Acyclic(after)
  {
    var rank :| Ranked(before, rank);
    assert Ranked(after, rank);
  }

  // ---- what leads where ----

  /** At most `n` references lead from `v` to `c`. */
  ghost predicate LeadsIn(cells: seq<Cell>, v: Id, c: Id, n: nat)
    decreases n
  {
    v < |cells| && (v == c || (n > 0 && exists k :: k in Slots(cells[v]) && LeadsIn(cells, k, c, n - 1)))
  }

  /** `c` is `v` or is held, at whatever depth, by `v`. */
  ghost predicate Leads(cells: seq<Cell>, v: Id, c: Id) {
    exists n: nat :: LeadsIn(cells, v, c, n)
  }

  /** A container that holds itself, at whatever depth. */
  ghost predicate OnCycle(cells: seq<Cell>, c: Id) {
    c < |cells| && exists k :: k in Slots(cells[c]) && Leads(cells, k, c)
  }

  /**
   * Something the caller owns leads to `c`: the caller owns it, or has borrowed it from a container. Besides the
   * singletons, nothing else may be passed to a function of the library.
   */
  ghost predicate Rooted(cells: seq<Cell>, owned: multiset<Id>, c: Id) {
    c < |cells| && (cells[c].Static? || c in owned || exists v :: v in owned && Leads(cells, v, c))
  }

  lemma LeadsSelf(cells: seq<Cell>, v: Id)
    requires v < |cells|
    ensures Leads(cells, v, v)
  {
    assert LeadsIn(cells, v, v, 0);
  }

  lemma LeadsStep(cells: seq<Cell>, v: Id, k: Id, c: Id)
    requires v < |cells| && k in Slots(cells[v]) && Leads(cells, k, c)
    ensures Leads(cells, v, c)
  {
    var n: nat :| LeadsIn(cells, k, c, n);
    assert LeadsIn(cells, v, c, n + 1);
  }

  lemma {:induction false} LeadsOn(cells: seq<Cell>, v: Id, c: Id, k: Id, n: nat)
    requires LeadsIn(cells, v, c, n) && c < |cells| && k in Slots(cells[c]) && k < |cells|
    ensures Leads(cells, v, k)
    decreases n
  {
    LeadsSelf(cells, k);
    if v == c {
      LeadsStep(cells, v, k, k);
    } else {
      var j :| j in Slots(cells[v]) && LeadsIn(cells, j, c, n - 1);
      LeadsOn(cells, j, c, k, n - 1);
      LeadsStep(cells, v, j, k);
    }
  }

  /** A way to `c` need not use the slots of `c`. */
  lemma {:induction false} LeadsMore(a: seq<Cell>, b: seq<Cell>, v: Id, c: Id, n: nat)
    requires |a| == |b| && LeadsIn(a, v, c, n)
    requires forall i, k :: 0 <= i < |a| && i != c && k in Slots(a[i]) ==> k in Slots(b[i])
    ensures LeadsIn(b, v, c, n)
    decreases n
  {
    if v != c {
      var k :| k in Slots(a[v]) && LeadsIn(a, k, c, n - 1);
      LeadsMore(a, b, k, c, n - 1);
      assert k in Slots(b[v]);
    }
  }

  lemma LeadsFewer(before: seq<Cell>, after: seq<Cell>, v: Id, c: Id)
    requires Fewer(before, after) && Leads(after, v, c)
    ensures Leads(before, v, c)
  {
    var n: nat :| LeadsIn(after, v, c, n);
    LeadsMore(after, before, v, c, n);
  }

  /** Whatever the slots of `c` become, the same values lead to it. */
  lemma LeadsBesides(cells: seq<Cell>, v: Id, c: Id, cell: Cell)
    requires c < |cells|
    ensures Leads(cells[c := cell], v, c) <==> Leads(cells, v, c)
  {
    var after := cells[c := cell];
    if Leads(after, v, c) {
      var n: nat :| LeadsIn(after, v, c, n);
      LeadsMore(after, cells, v, c, n);
    }
    if Leads(cells, v, c) {
      var n: nat :| LeadsIn(cells, v, c, n);
      LeadsMore(cells, after, v, c, n);
    }
  }

  lemma {:induction false} LeadsDown(cells: seq<Cell>, rank: seq<nat>, v: Id, c: Id, n: nat)
    requires Ranked(cells, rank) && LeadsIn(cells, v, c, n)
    ensures c < |cells| && rank[c] <= rank[v]
    decreases n
  {
    if v != c {
      var k :| k in Slots(cells[v]) && LeadsIn(cells, k, c, n - 1);
      LeadsDown(cells, rank, k, c, n - 1);
    }
  }

  /** In an acyclic store no container is on a cycle. */
  lemma AcyclicOff(cells: seq<Cell>, c: Id)
    requires Acyclic(cells)
    ensures !OnCycle(cells, c)
  {
    var rank :| Ranked(cells, rank);
    if OnCycle(cells, c) {
      var k :| k in Slots(cells[c]) && Leads(cells, k, c);
      var n: nat :| LeadsIn(cells, k, c, n);
      LeadsDown(cells, rank, k, c, n);
    }
  }

  /** Everything `x` leads to. */
  ghost function Under(cells: seq<Cell>, x: Id): set<Id> {
    set i | 0 <= i < |cells| && Leads(cells, x, i)
  }

  lemma UnderClosed(cells: seq<Cell>, owned: multiset<Id>, x: Id)
    requires Conserved(cells, owned) && x < |cells|
    ensures ClosedUnder(cells, Under(cells, x)) && x in Under(cells, x)
  {
    LeadsSelf(cells, x);
    forall i, k | 0 <= i < |cells| && i in Under(cells, x) && k in Slots(cells[i])
      ensures k in Under(cells, x)
    {
      var n: nat :| LeadsIn(cells, x, i, n);
      LeadsOn(cells, x, i, k, n);
    }
  }

  predicate Alive(c: Cell) {
    c.Live? || c.Static?
  }

  /** What is owned outlives any deletion, and so does everything it leads to. */
  lemma {:induction false} Outlives(
      before: seq<Cell>, after: seq<Cell>, owned: multiset<Id>, s: set<Id>, v: Id, c: Id, n: nat)
    requires Shrunk(before, after, s) && Conserved(after, owned) && LeadsIn(before, v, c, n) && Alive(after[v])
    ensures c < |after| && Alive(after[c]) && LeadsIn(after, v, c, n)
    decreases n
  {
    if v != c {
      var k :| k in Slots(before[v]) && LeadsIn(before, k, c, n - 1);
      assert Shrinks(before[v], after[v], v in s);
      assert k in Slots(after[v]);
      HeldSlot(after, v, k);
      assert Balanced(after, owned, k);
      Outlives(before, after, owned, s, k, c, n - 1);
    }
  }

  /** Giving references up does not change what the owned values lead to. */
  lemma OwnedLeads(before: seq<Cell>, after: seq<Cell>, owned: multiset<Id>, s: set<Id>, v: Id, c: Id)
    requires Shrunk(before, after, s) && Conserved(after, owned) && v in owned
    ensures Leads(after, v, c) <==> Leads(before, v, c)
    ensures Leads(before, v, c) ==> c < |after| && Alive(after[c])
  {
    NotGone(after, owned, v);
    if Leads(before, v, c) {
      var n: nat :| LeadsIn(before, v, c, n);
      Outlives(before, after, owned, s, v, c, n);
    }
    if Leads(after, v, c) {
      ShrunkFacts(before, after, s);
      LeadsFewer(before, after, v, c);
    }
  }

  /** What is rooted is alive. */
  lemma RootedAlive(cells: seq<Cell>, owned: multiset<Id>, c: Id)
    requires Conserved(cells, owned) && Rooted(cells, owned, c)
    ensures Alive(cells[c])
  {
    if c in owned {
      NotGone(cells, owned, c);
    } else if !cells[c].Static? {
      var v :| v in owned && Leads(cells, v, c);
      assert Shrunk(cells, cells, {});
      OwnedLeads(cells, cells, owned, {}, v, c);
    }
  }

  /** In an acyclic store everything alive is rooted: nothing leaks, at any time. */
  lemma {:induction false} AliveRooted(cells: seq<Cell>, owned: multiset<Id>, rank: seq<nat>, c: Id, high: nat)
    requires Conserved(cells, owned) && Settled(cells) && Ranked(cells, rank) && c < |cells| && cells[c].Live?
    requires forall i :: 0 <= i < |rank| ==> rank[i] <= high
    ensures Rooted(cells, owned, c)
    decreases high - rank[c]
  {
    assert Balanced(cells, owned, c);
    if c !in owned {
      HeldBy(cells, c);
      var i :| 0 <= i < |cells| && c in Slots(cells[i]);
      AliveRooted(cells, owned, rank, i, high);
      RootedSlot(cells, owned, i, c);
    }
  }

  /** What a rooted container holds is rooted: the caller can borrow it. */
  lemma RootedSlot(cells: seq<Cell>, owned: multiset<Id>, i: Id, k: Id)
    requires Conserved(cells, owned) && Rooted(cells, owned, i) && k in Slots(cells[i])
    ensures Rooted(cells, owned, k)
  {
    var v := if i in owned then i else var v :| v in owned && Leads(cells, v, i); v;
    LeadsSelf(cells, i);
    var n: nat :| LeadsIn(cells, v, i, n);
    LeadsOn(cells, v, i, k, n);
  }

  function Highest(rank: seq<nat>): (h: nat)
    ensures forall i :: 0 <= i < |rank| ==> rank[i] <= h
  {
    if rank == [] then 0
    else
      var h := Highest(rank[..|rank| - 1]);
      assert forall i :: 0 <= i < |rank| - 1 ==> rank[i] == rank[..|rank| - 1][i];
      if rank[|rank| - 1] > h then rank[|rank| - 1] else h
  }

  /** In an acyclic store exactly what the caller's references lead to is alive. */
  lemma AliveIffRooted(cells: seq<Cell>, owned: multiset<Id>, c: Id)
    requires Conserved(cells, owned) && Settled(cells) && Acyclic(cells) && c < |cells|
    ensures Alive(cells[c]) <==> Rooted(cells, owned, c)
  {
    var rank :| Ranked(cells, rank);
    if cells[c].Live? {
      AliveRooted(cells, owned, rank, c, Highest(rank));
    }
    if Rooted(cells, owned, c) {
      RootedAlive(cells, owned, c);
    }
  }

  /** When the caller has given up every reference, every value that is not a singleton has been freed. */
  lemma NoLeak(cells: seq<Cell>)
    requires Conserved(cells, multiset{}) && Settled(cells) && Acyclic(cells)
    ensures forall v :: 0 <= v < |cells| ==> cells[v] == Freed || cells[v] == Static
  {
    forall v | 0 <= v < |cells| && cells[v] != Static
      ensures cells[v] == Freed
    {
      AliveIffRooted(cells, multiset{}, v);
    }
  }

  // ---- cycles keep themselves alive ----

  ghost predicate HeldWithin(cells: seq<Cell>, s: set<Id>, c: Id) {
    c < |cells| && cells[c].Live? && exists i :: i in s && i < |cells| && c in Slots(cells[i])
  }

  /** Live values each of which is held by one of them. */
  ghost predicate Kept(cells: seq<Cell>, s: set<Id>) {
    forall c {:trigger HeldWithin(cells, s, c)} :: c in s ==> HeldWithin(cells, s, c)
  }

  /** No deletion reaches such values. */
  ghost predicate KeptOn(before: seq<Cell>, after: seq<Cell>) {
    forall s :: Kept(before, s) ==> Kept(after, s)
  }

  lemma KeptSelf(cells: seq<Cell>)
    ensures KeptOn(cells, cells)
  {
  }

  lemma KeptUpdate(cells: seq<Cell>, s: set<Id>, v: Id, c: Cell)
    requires Kept(cells, s) && v < |cells| && (v in s ==> c.Live? && Slots(c) == Slots(cells[v]))
    ensures Kept(cells[v := c], s)
  {
    var after := cells[v := c];
    forall x | x in s
      ensures HeldWithin(after, s, x)
    {
      assert HeldWithin(cells, s, x);
      var i :| i in s && i < |cells| && x in Slots(cells[i]);
      assert x in Slots(after[i]);
    }
  }

  lemma KeptOutside(cells: seq<Cell>, v: Id, c: Cell)
    requires v < |cells| && !cells[v].Live?
    ensures KeptOn(cells, cells[v := c])
  {
    forall s | Kept(cells, s)
      ensures Kept(cells[v := c], s)
    {
      assert v in s ==> HeldWithin(cells, s, v);
      KeptUpdate(cells, s, v, c);
    }
  }

  lemma KeptCounted(cells: seq<Cell>, v: Id, n: nat)
    requires v < |cells| && cells[v].Live?
    ensures KeptOn(cells, cells[v := cells[v].(refcount := n)])
  {
    forall s | Kept(cells, s)
      ensures Kept(cells[v := cells[v].(refcount := n)], s)
    {
      KeptUpdate(cells, s, v, cells[v].(refcount := n));
    }
  }

  /** The last reference to a value is not in a slot when somebody owns it. */
  lemma KeptLast(cells: seq<Cell>, owned: multiset<Id>, v: Id, c: Cell)
    requires Conserved(cells, owned) && v in owned && v < |cells| && cells[v].Live? && cells[v].refcount <= 1
    ensures KeptOn(cells, cells[v := c])
  {
    assert Balanced(cells, owned, v);
    forall s | Kept(cells, s)
      ensures Kept(cells[v := c], s)
    {
      if v in s {
        assert HeldWithin(cells, s, v);
        var i :| i in s && i < |cells| && v in Slots(cells[i]);
        HeldSlot(cells, i, v);
      }
      KeptUpdate(cells, s, v, c);
    }
  }

  lemma KeptTwice(a: seq<Cell>, b: seq<Cell>, c: seq<Cell>)
    requires KeptOn(a, b) && KeptOn(b, c)
    ensures KeptOn(a, c)
  {
  }

  lemma {:induction false} LeadsLast(cells: seq<Cell>, v: Id, c: Id, n: nat) returns (j: Id)
    requires LeadsIn(cells, v, c, n) && v != c
    ensures j < |cells| && c in Slots(cells[j]) && Leads(cells, v, j)
    decreases n
  {
    var k :| k in Slots(cells[v]) && LeadsIn(cells, k, c, n - 1);
    if k == c {
      LeadsSelf(cells, v);
      j := v;
    } else {
      j := LeadsLast(cells, k, c, n - 1);
      LeadsStep(cells, v, k, j);
    }
  }

  /** The values on the way from a slot of `c` back to `c`. */
  lemma CycleKept(cells: seq<Cell>, c: Id) returns (s: set<Id>)
    requires OnCycle(cells, c) && Settled(cells)
    ensures c in s && Kept(cells, s)
  {
    var k :| k in Slots(cells[c]) && Leads(cells, k, c);
    s := set i | 0 <= i < |cells| && Leads(cells, k, i) && Leads(cells, i, c);
    LeadsSelf(cells, c);
    forall i | i in s
      ensures HeldWithin(cells, s, i)
    {
      LeadsOut(cells, i, c, k);
      if i == k {
        assert c in s;
      } else {
        var n: nat :| LeadsIn(cells, k, i, n);
        var j := LeadsLast(cells, k, i, n);
        LeadsStep(cells, j, i, c);
        assert j in s;
      }
    }
  }

  /** What leads to `c`, and `c` if it holds something, is a container. */
  lemma LeadsOut(cells: seq<Cell>, i: Id, c: Id, k: Id)
    requires Leads(cells, i, c) && Settled(cells) && c < |cells| && k in Slots(cells[c])
    ensures i < |cells| && cells[i].Live?
  {
    var n: nat :| LeadsIn(cells, i, c, n);
  }

  /** A store without a container on a cycle is acyclic: what a value leads to can be counted. */
  lemma OffAcyclic(cells: seq<Cell>)
    requires forall c :: 0 <= c < |cells| ==> !OnCycle(cells, c)
    ensures Acyclic(cells)
  {
    var rank := seq(|cells|, i requires 0 <= i < |cells| => |Under(cells, i)|);
    forall i, k | 0 <= i < |cells| && k in Slots(cells[i]) && k < |cells|
      ensures rank[k] < rank[i]
    {
      LeadsSelf(cells, i);
      forall j | j in Under(cells, k)
        ensures j in Under(cells, i)
      {
        LeadsStep(cells, i, k, j);
      }
      assert !OnCycle(cells, i);
      assert i !in Under(cells, k);
      Smaller(Under(cells, k), Under(cells, i), i);
    }
    assert Ranked(cells, rank);
  }

  lemma Smaller(a: set<Id>, b: set<Id>, x: Id)
    requires a <= b && x in b && x !in a
    ensures |a| < |b|
  {
    assert a <= b - {x};
    SubsetSize(a, b - {x});
  }

  lemma {:induction false} SubsetSize(a: set<Id>, b: set<Id>)
    requires a <= b
    ensures |a| <= |b|
    decreases a
  {
    if x :| x in a {
      SubsetSize(a - {x}, b - {x});
    }
  }

  // ---- closing a cycle ----

  /** The containers that lead to `c` rise above the others. */
  ghost function Lifted(cells: seq<Cell>, rank: seq<nat>, c: Id, lift: nat): (r: seq<nat>)
    requires |rank| == |cells|
    ensures |r| == |cells|
    ensures forall i :: 0 <= i < |r| ==> r[i] == rank[i] + if Leads(cells, i, c) then lift else 0
  {
    seq(|cells|, i requires 0 <= i < |cells| => rank[i] + if Leads(cells, i, c) then lift else 0)
  }

  /** References put into `c` to values that do not lead to it close no cycle. */
  lemma LinkAcyclic(cells: seq<Cell>, rank: seq<nat>, c: Id, cell: Cell)
    requires Ranked(cells, rank) && c < |cells|
    requires forall k :: k in Slots(cell) ==> k in Slots(cells[c]) || !Leads(cells, k, c)
    ensures Ranked(cells[c := cell], Lifted(cells, rank, c, Highest(rank) + 1))
  {
    var after, up := cells[c := cell], Lifted(cells, rank, c, Highest(rank) + 1);
    LeadsSelf(cells, c);
    forall i, k | 0 <= i < |after| && k in Slots(after[i]) && k < |after|
      ensures up[k] < up[i]
    {
      if k in Slots(cells[i]) && Leads(cells, k, c) {
        LeadsStep(cells, i, k, c);
      }
    }
  }

  /** A reference put into `c` to a value that leads to it closes one. */
  lemma LinkCyclic(cells: seq<Cell>, c: Id, cell: Cell, v: Id)
    requires c < |cells| && v in Slots(cell) && Leads(cells, v, c)
    ensures !Acyclic(cells[c := cell])
  {
    var after := cells[c := cell];
    LeadsBesides(cells, v, c, cell);
    assert OnCycle(after, c);
    if Acyclic(after) {
      AcyclicOff(after, c);
    }
  }

  /** An insertion closes a cycle if and only if the container can be reached from what is put into it. */
  lemma Link(cells: seq<Cell>, c: Id, cell: Cell, xs: multiset<Id>)
    requires Acyclic(cells) && c < |cells|
    requires multiset(Slots(cell)) == multiset(Slots(cells[c])) + xs
    ensures Acyclic(cells[c := cell]) <==> forall v :: v in xs ==> !Leads(cells, v, c)
  {
    hide Slots, Leads, Acyclic, Lifted, Ranked;
    SameBag(Slots(cell), Slots(cells[c]), xs);
    if v :| v in xs && Leads(cells, v, c) {
      LinkCyclic(cells, c, cell, v);
    } else {
      AcyclicLink(cells, c, cell);
    }
  }

  lemma AcyclicLink(cells: seq<Cell>, c: Id, cell: Cell)
    requires Acyclic(cells) && c < |cells|
    requires forall k :: k in Slots(cell) ==> k in Slots(cells[c]) || !Leads(cells, k, c)
    ensures Acyclic(cells[c := cell])
  {
    var rank :| Ranked(cells, rank);
    LinkAcyclic(cells, rank, c, cell);
  }

  // ---- the store ----

  class Store {
    var cells: seq<Cell>
    ghost var owned: multiset<Id>

    ghost predicate Valid()
      reads this
    {
      Conserved(cells, owned) && Settled(cells)
    }

    constructor ()
      ensures Valid() && cells == [Static, Static, Static] && owned == multiset{}
    {
      cells, owned := [Static, Static, Static], multiset{};
    }

    /** json_string, json_integer, json_array, json_object: a new value with one reference, the caller's. */
    method Create(p: Payload) returns (v: Id)
      requires Valid() && SlotsOf(p) == []
      modifies this
      ensures Valid() && v == |old(cells)| && cells == old(cells) + [Live(1, p)]
      ensures owned == old(owned) + multiset{v}
    {
      v := |cells|;
      AddCell(cells, owned, p);
      cells := cells + [Live(1, p)];
      owned := owned + multiset{v};
    }

    /** json_incref */
    method IncRef(v: Id)
      requires Conserved(cells, owned) && v < |cells| && (cells[v].Live? || cells[v].Static?)
      modifies this
      ensures Conserved(cells, owned) && owned == old(owned) + multiset{v}
      ensures cells == old(cells)[v :=
        match old(cells)[v]
        case Live(n, p) => Live(n + 1, p)
        case other => other]
    {
      if cells[v].Live? {
        CountUp(cells, owned, v);
        cells := cells[v := cells[v].(refcount := cells[v].refcount + 1)];
      } else {
        OwnStatic(cells, owned, v);
      }
      owned := owned + multiset{v};
    }

    /**
     * json_decref: the caller gives up a reference. Only values inside `s`, a part of the store closed under
     * references, can be affected, and what is freed is exactly what has no reference left.
     */
    method DecRef(v: Id, ghost s: set<Id>)
      requires Conserved(cells, owned) && v in owned && v in s && ClosedUnder(cells, s)
      modifies this
      ensures Conserved(cells, owned) && owned == old(owned) - multiset{v}
      ensures Shrunk(old(cells), cells, s) && ClosedUnder(cells, s)
      ensures LiveCount(cells) <= LiveCount(old(cells))
      ensures KeptOn(old(cells), cells)
      decreases LiveCount(cells), 0
    {
      hide Conserved, ClosedUnder, LiveCount, KeptOn;
      NotGone(cells, owned, v);
      match cells[v]
      case Static =>
        DisownStatic(cells, owned, v);
        KeptSelf(cells);
        owned := owned - multiset{v};
      case Live(refcount, p) =>
        ghost var was := cells;
        CountDown(cells, owned, v);
        owned := owned - multiset{v};
        if refcount > 1 {
          LiveCountUpdate(cells, v, Live(refcount - 1, p));
          cells := cells[v := Live(refcount - 1, p)];
          ShrunkClosed(was, cells, s, s);
          KeptCounted(was, v, refcount - 1);
        } else {
          LiveCountUpdate(cells, v, Dying(SlotsOf(p)));
          cells := cells[v := Dying(SlotsOf(p))];
          SameSlotsClosed(was, cells, s);
          KeptLast(was, old(owned), v, Dying(SlotsOf(p)));
          ghost var mid := cells;
          Delete(v, s);
          KeptTwice(was, mid, cells);
        }
    }

    /** json_delete: every slot is given up in turn, then the value is gone. */
    method Delete(v: Id, ghost s: set<Id>)
      requires Conserved(cells, owned) && v < |cells| && cells[v].Dying? && v in s && ClosedUnder(cells, s)
      modifies this
      ensures Conserved(cells, owned) && owned == old(owned)
      ensures |cells| == |old(cells)| && cells[v] == Freed
      ensures Shrunk(old(cells)[v := Freed], cells, s) && ClosedUnder(cells, s)
      ensures LiveCount(cells) <= LiveCount(old(cells))
      ensures KeptOn(old(cells), cells)
      decreases LiveCount(cells), 1
    {
      hide Conserved, ClosedUnder, LiveCount, KeptOn;
      ghost var was := cells[v := Freed];
      KeptSelf(cells);
      while cells[v].rest != []
        invariant Conserved(cells, owned) && owned == old(owned) && ClosedUnder(cells, s)
        invariant |cells| == |was| && cells[v].Dying? && Shrunk(was, cells[v := Freed], s)
        invariant LiveCount(cells) <= LiveCount(old(cells)) && KeptOn(old(cells), cells)
        decreases |cells[v].rest|
      {
        ghost var before := cells;
        DeleteSlot(v, s, was);
        KeptTwice(old(cells), before, cells);
      }
      SetFree(cells, owned, v);
      LiveCountUpdate(cells, v, Freed);
      ghost var last := cells;
      cells := cells[v := Freed];
      FewerSlotsClosed(last, cells, s);
      KeptOutside(last, v, Freed);
      KeptTwice(old(cells), last, cells);
    }

    method DeleteSlot(v: Id, ghost s: set<Id>, ghost was: seq<Cell>)
      requires Conserved(cells, owned) && v in s && ClosedUnder(cells, s)
      requires |cells| == |was| && v < |cells| && cells[v].Dying? && cells[v].rest != []
      requires Shrunk(was, cells[v := Freed], s)
      modifies this
      ensures Conserved(cells, owned) && owned == old(owned) && ClosedUnder(cells, s)
      ensures |cells| == |was| && cells[v] == Dying(old(cells[v].rest[1..])) && Shrunk(was, cells[v := Freed], s)
      ensures LiveCount(cells) <= LiveCount(old(cells))
      ensures KeptOn(old(cells), cells)
      decreases LiveCount(cells), 1, 0
    {
      hide Conserved, ClosedUnder, LiveCount, KeptOn, Shrunk;
      var rest := cells[v].rest;
      var x := rest[0];
      assert rest == [x] + rest[1..];
      SlotOut(cells, owned, v, Dying(rest[1..]), x);
      LiveCountUpdate(cells, v, Dying(rest[1..]));
      SlotInside(cells, s, v, x);
      FewerSlotsClosed(cells, cells[v := Dying(rest[1..])], s);
      assert cells[v := Dying(rest[1..])][v := Freed] == cells[v := Freed];
      KeptOutside(cells, v, Dying(rest[1..]));
      cells := cells[v := Dying(rest[1..])];
      owned := owned + multiset{x};
      ghost var mid := cells;
      DecRef(x, s);
      ShrunkAfter(was, mid, cells, s, v);
      KeptTwice(old(cells), mid, cells);
    }

    // ---- containers ----

    /**
     * A slot of `c` is emptied and its reference given up. As the caller has hold of `c`, the deletions this sets
     * off leave it alive, though they may count it down if what was dropped leads back to it.
     */
    method Drop(c: Id, p: Payload, x: Id)
      requires Valid() && c < |cells| && Rooted(cells, owned, c) && cells[c].Live?
      requires multiset(SlotsOf(cells[c].payload)) == multiset(SlotsOf(p)) + multiset{x}
      modifies this
      ensures Valid() && owned == old(owned)
      ensures Others(old(cells), cells, c) && cells[c].Live? && cells[c].payload == p
      ensures !Leads(old(cells), x, c) ==> cells[c].refcount == old(cells[c].refcount)
      ensures Fewer(old(cells), cells)
      ensures forall v :: v in owned ==> (Leads(cells, v, c) <==> Leads(old(cells), v, c))
    {
      hide Conserved, Shrunk, ClosedUnder, Slots, SlotsOf, Leads, Settled;
      ghost var was, filled := cells, Live(cells[c].refcount, p);
      LessHeld(cells[c], filled, x);
      Facts(cells, owned, c);
      SlotOut(cells, owned, c, filled, x);
      cells := cells[c := Live(cells[c].refcount, p)];
      owned := owned + multiset{x};
      ghost var mid := cells;
      UnderClosed(cells, owned, x);
      LeadsBesides(was, x, c, filled);
      OneDropped(was, mid, c);
      DecRef(x, Under(mid, x));
      AfterDrop(was, mid, cells, owned, Under(mid, x), c);
    }

    /** References the caller owns move into slots of `c`. */
    method Take(c: Id, p: Payload, ghost xs: multiset<Id>)
      requires Valid() && c < |cells| && cells[c].Live? && xs <= owned
      requires multiset(SlotsOf(p)) == multiset(SlotsOf(cells[c].payload)) + xs
      modifies this
      ensures Valid() && owned == old(owned) - xs
      ensures cells == old(cells)[c := Live(old(cells[c].refcount), p)]
      ensures Acyclic(old(cells)) ==> (Acyclic(cells) <==> forall v :: v in xs ==> !Leads(old(cells), v, c))
    {
      hide Conserved, Acyclic, Leads;
      if Acyclic(cells) {
        Link(cells, c, Live(cells[c].refcount, p), xs);
      }
      SlotsIn(cells, owned, c, Live(cells[c].refcount, p), xs);
      cells := cells[c := Live(cells[c].refcount, p)];
      owned := owned - xs;
    }

    /** The failure path of the functions that steal a reference: the value is given up all the same. */
    method Reject(value: Option<Id>)
      requires Valid() && (value.Some? ==> value.value in owned)
      modifies this
      ensures Valid() && owned == old(owned) - Stolen(value) && Shrunk(old(cells), cells, Everything(|old(cells)|))
      ensures Acyclic(old(cells)) ==> Acyclic(cells)
      ensures value == None ==> cells == old(cells)
    {
      hide Conserved, ClosedUnder, Acyclic;
      if value.Some? {
        AllClosed(cells, owned);
        NotGone(cells, owned, value.value);
        DecRef(value.value, Everything(|cells|));
        ShrunkFacts(old(cells), cells, Everything(|cells|));
        if Acyclic(old(cells)) {
          FewerAcyclic(old(cells), cells);
        }
      }
    }

    /** json_array_append_new */
    method ArrayAppendNew(c: Id, value: Option<Id>) returns (rc: int)
      requires Valid() && c < |cells| && (value.Some? ==> value.value in owned)
      modifies this
      ensures Valid() && owned == old(owned) - Stolen(value)
      ensures rc == if value.Some? && IsArray(old(cells)[c]) && c != value.value then 0 else -1
      ensures rc == 0 ==>
        cells == old(cells)[c := Live(old(cells[c].refcount), Arr(old(cells[c].payload.items) + [value.value]))]
      ensures rc != 0 ==> Shrunk(old(cells), cells, Everything(|old(cells)|))
      ensures Acyclic(old(cells)) ==> (Acyclic(cells) <==> rc == 0 ==> !Leads(old(cells), value.value, c))
    {
      hide Conserved, Acyclic, Leads;
      if value == None {
        return -1;
      }
      if !IsArray(cells[c]) || c == value.value {
        Reject(value);
        return -1;
      }
      Take(c, Arr(cells[c].payload.items + [value.value]), multiset{value.value});
      rc := 0;
    }

    /** json_array_insert_new */
    method ArrayInsertNew(c: Id, index: nat, value: Option<Id>) returns (rc: int)
      requires Valid() && c < |cells| && (value.Some? ==> value.value in owned)
      modifies this
      ensures Valid() && owned == old(owned) - Stolen(value)
      ensures rc == if value.Some? && IsArray(old(cells)[c]) && c != value.value
        && index <= |old(cells)[c].payload.items| then 0 else -1
      ensures rc == 0 ==> cells == old(cells)[c := Live(old(cells[c].refcount),
        Arr(old(cells[c].payload.items)[..index] + [value.value] + old(cells[c].payload.items)[index..]))]
      ensures rc != 0 ==> Shrunk(old(cells), cells, Everything(|old(cells)|))
      ensures Acyclic(old(cells)) ==> (Acyclic(cells) <==> rc == 0 ==> !Leads(old(cells), value.value, c))
    {
      hide Conserved, Acyclic, Leads;
      if value == None {
        return -1;
      }
      if !IsArray(cells[c]) || c == value.value {
        Reject(value);
        return -1;
      }
      var items := cells[c].payload.items;
      if index > |items| {
        Reject(value);
        return -1;
      }
      assert items == items[..index] + items[index..];
      Take(c, Arr(items[..index] + [value.value] + items[index..]), multiset{value.value});
      rc := 0;
    }

    /** json_array_set_new: the old element is given up before the new one is stored. */
    method ArraySetNew(c: Id, index: nat, value: Option<Id>) returns (rc: int)
      requires Valid() && c < |cells| && Rooted(cells, owned, c) && (value.Some? ==> value.value in owned)
      modifies this
      ensures Valid() && owned == old(owned) - Stolen(value)
      ensures rc == if value.Some? && IsArray(old(cells)[c]) && c != value.value
        && index < |old(cells)[c].payload.items| then 0 else -1
      ensures rc == 0 ==> Becomes(old(cells), cells, c, Arr(old(cells[c].payload.items)[index := value.value]))
      ensures rc != 0 ==> Shrunk(old(cells), cells, Everything(|old(cells)|))
      ensures Acyclic(old(cells)) ==> (Acyclic(cells) <==> rc == 0 ==> !Leads(old(cells), value.value, c))
    {
      hide Conserved, Acyclic, Leads, Rooted;
      if value == None {
        return -1;
      }
      if !IsArray(cells[c]) || c == value.value {
        Reject(value);
        return -1;
      }
      var items := cells[c].payload.items;
      if index >= |items| {
        Reject(value);
        return -1;
      }
      ReplaceElement(c, index, value.value);
      rc := 0;
    }

    method ReplaceElement(c: Id, index: nat, value: Id)
      requires Valid() && c < |cells| && Rooted(cells, owned, c) && value in owned && IsArray(cells[c])
      requires index < |cells[c].payload.items|
      modifies this
      ensures Valid() && owned == old(owned) - multiset{value}
      ensures Becomes(old(cells), cells, c, Arr(old(cells[c].payload.items)[index := value]))
      ensures Acyclic(old(cells)) ==> (Acyclic(cells) <==> !Leads(old(cells), value, c))
    {
      hide Valid, Acyclic, Shrinks, Leads, Rooted, OnCycle, Fewer;
      var items := cells[c].payload.items;
      var hole := items[..index] + items[index + 1..];
      assert items == items[..index] + [items[index]] + items[index + 1..];
      assert items[index := value] == items[..index] + [value] + items[index + 1..];
      OffCycle(cells, c, items[index]);
      Drop(c, Arr(hole), items[index]);
      StillAcyclic(old(cells), cells);
      Take(c, Arr(items[index := value]), multiset{value});
    }

    /** json_array_remove */
    method ArrayRemove(c: Id, index: nat) returns (rc: int)
      requires Valid() && c < |cells| && Rooted(cells, owned, c)
      modifies this
      ensures Valid() && owned == old(owned)
      ensures rc == if IsArray(old(cells)[c]) && index < |old(cells)[c].payload.items| then 0 else -1
      ensures rc == 0 ==> Becomes(old(cells), cells, c,
        Arr(old(cells[c].payload.items)[..index] + old(cells[c].payload.items)[index + 1..]))
      ensures rc != 0 ==> cells == old(cells)
      ensures Rooted(cells, owned, c) && (Acyclic(old(cells)) ==> Acyclic(cells))
    {
      hide Conserved, Acyclic, Leads, Rooted, OnCycle, Fewer;
      if !IsArray(cells[c]) {
        return -1;
      }
      var items := cells[c].payload.items;
      if index >= |items| {
        return -1;
      }
      assert items == items[..index] + [items[index]] + items[index + 1..];
      OffCycle(cells, c, items[index]);
      Drop(c, Arr(items[..index] + items[index + 1..]), items[index]);
      StillAcyclic(old(cells), cells);
      StillRooted(old(cells), cells, owned, c);
      rc := 0;
    }

    /** json_array_clear */
    method ArrayClear(c: Id) returns (rc: int)
      requires Valid() && c < |cells| && Rooted(cells, owned, c)
      modifies this
      ensures Valid() && owned == old(owned)
      ensures rc == if IsArray(old(cells)[c]) then 0 else -1
      ensures rc == 0 ==> Becomes(old(cells), cells, c, Arr([]))
      ensures rc != 0 ==> cells == old(cells)
      ensures Rooted(cells, owned, c) && (Acyclic(old(cells)) ==> Acyclic(cells))
    {
      hide Conserved, Acyclic, Leads, Rooted, OnCycle, Fewer;
      if !IsArray(cells[c]) {
        return -1;
      }
      NothingYet(cells, c);
      while cells[c].payload.items != []
        invariant Valid() && Rooted(cells, owned, c) && owned == old(owned) && Others(old(cells), cells, c)
        invariant IsArray(cells[c]) && Fewer(old(cells), cells)
        invariant !OnCycle(old(cells), c) ==> cells[c].refcount == old(cells[c].refcount)
        decreases |cells[c].payload.items|
      {
        var items := cells[c].payload.items;
        assert items == [items[0]] + items[1..];
        ghost var was := cells;
        OffCycleFewer(old(cells), cells, c, items[0]);
        Drop(c, Arr(items[1..]), items[0]);
        DropAgain(old(cells), was, cells, owned, c);
      }
      StillAcyclic(old(cells), cells);
      rc := 0;
    }

    /** json_array_extend: every element of `d`, which may be `c` itself, gains a reference and is appended. */
    method ArrayExtend(c: Id, d: Id) returns (rc: int)
      requires Valid() && c < |cells| && d < |cells|
      modifies this
      ensures Valid() && owned == old(owned)
      ensures rc == if IsArray(old(cells)[c]) && IsArray(old(cells)[d]) then 0 else -1
      ensures rc == 0 ==> |cells| == |old(cells)|
      ensures rc == 0 ==> IsArray(cells[c])
      ensures rc == 0 ==> cells[c].payload.items == old(cells[c].payload.items) + old(cells[d].payload.items)
      ensures rc == 0 ==> forall i :: 0 <= i < |cells| && i != c ==> SamePayload(old(cells)[i], cells[i])
      ensures rc != 0 ==> cells == old(cells)
      ensures Acyclic(old(cells)) ==> (Acyclic(cells) <==> rc == 0 ==>
        forall k :: k in old(cells)[d].payload.items ==> !Leads(old(cells), k, c))
    {
      hide Conserved, Acyclic, Leads;
      if !IsArray(cells[c]) || !IsArray(cells[d]) {
        return -1;
      }
      var items, more := cells[c].payload.items, cells[d].payload.items;
      RefAll(d, more);
      assert SamePayload(old(cells)[c], cells[c]);
      ghost var mid := cells;
      Take(c, Arr(items + more), multiset(more));
      ExtendLinks(old(cells), mid, cells, c, more);
      assert old(owned) + multiset(more) - multiset(more) == old(owned);
      rc := 0;
    }

    method RefAll(d: Id, more: seq<Id>)
      requires Valid() && d < |cells| && IsArray(cells[d]) && cells[d].payload.items == more
      modifies this
      ensures Valid() && owned == old(owned) + multiset(more)
      ensures |cells| == |old(cells)| && forall k :: 0 <= k < |cells| ==> SamePayload(old(cells)[k], cells[k])
    {
      hide Conserved;
      var i := 0;
      assert more[..0] == [];
      while i < |more|
        invariant 0 <= i <= |more| && Valid()
        invariant owned == old(owned) + multiset(more[..i])
        invariant |cells| == |old(cells)| && forall k :: 0 <= k < |cells| ==> SamePayload(old(cells)[k], cells[k])
      {
        assert SamePayload(old(cells)[d], cells[d]);
        Element(cells, owned, d, more, i);
        IncRef(more[i]);
        assert more[..i + 1] == more[..i] + [more[i]];
        i := i + 1;
      }
      assert more[..i] == more;
    }

    /** json_object_set_new_nocheck, with hashtable_set; a new pair goes where its bucket has it. */
    method ObjectSetNew(c: Id, key: bytes, value: Option<Id>) returns (rc: int)
      requires Valid() && c < |cells| && Rooted(cells, owned, c) && (value.Some? ==> value.value in owned)
      modifies this
      ensures Valid() && owned == old(owned) - Stolen(value)
      ensures rc == if value.Some? && IsObject(old(cells)[c]) && c != value.value then 0 else -1
      ensures rc == 0 ==> c < |cells| && IsObject(cells[c]) && Becomes(old(cells), cells, c, cells[c].payload)
      ensures rc == 0 ==> WasSet(old(cells[c].payload.members), cells[c].payload.members, key, value.value)
      ensures rc != 0 ==> Shrunk(old(cells), cells, Everything(|old(cells)|))
      ensures Acyclic(old(cells)) ==> (Acyclic(cells) <==> rc == 0 ==> !Leads(old(cells), value.value, c))
    {
      hide Conserved, Acyclic, Leads, Rooted, OnCycle;
      if value == None {
        return -1;
      }
      if !IsObject(cells[c]) || c == value.value {
        Reject(value);
        return -1;
      }
      var at := FindKey(cells[c].payload.members, key);
      if at < |cells[c].payload.members| {
        ReplaceMember(c, at, key, value.value);
      } else {
        AddMember(c, key, value.value);
      }
      rc := 0;
    }

    method ReplaceMember(c: Id, at: nat, key: bytes, value: Id)
      requires Valid() && c < |cells| && Rooted(cells, owned, c) && value in owned && IsObject(cells[c])
      requires at < |cells[c].payload.members| && cells[c].payload.members[at].key == key
      modifies this
      ensures Valid() && owned == old(owned) - multiset{value}
      ensures c < |cells| && IsObject(cells[c]) && Becomes(old(cells), cells, c, cells[c].payload)
      ensures WasSet(old(cells[c].payload.members), cells[c].payload.members, key, value)
      ensures Acyclic(old(cells)) ==> (Acyclic(cells) <==> !Leads(old(cells), value, c))
    {
      hide Valid, Acyclic, Shrinks, Values, Leads, Rooted, OnCycle, Fewer;
      var members := cells[c].payload.members;
      var hole := members[..at] + members[at + 1..];
      var full := members[at := Pair(key, value)];
      ReplaceBag(members, at, Pair(key, value));
      OffCycle(cells, c, members[at].value);
      Drop(c, Obj(hole), members[at].value);
      StillAcyclic(old(cells), cells);
      Take(c, Obj(full), multiset{value});
      assert WasSet(members, full, key, value);
    }

    method AddMember(c: Id, key: bytes, value: Id)
      requires Valid() && c < |cells| && value in owned && IsObject(cells[c])
      requires !HasKey(cells[c].payload.members, key)
      modifies this
      ensures Valid() && owned == old(owned) - multiset{value}
      ensures c < |cells| && IsObject(cells[c]) && Becomes(old(cells), cells, c, cells[c].payload)
      ensures WasSet(old(cells[c].payload.members), cells[c].payload.members, key, value)
      ensures Acyclic(old(cells)) ==> (Acyclic(cells) <==> !Leads(old(cells), value, c))
    {
      hide Valid, HasKey, Acyclic, Leads, Becomes, Values;
      var members := cells[c].payload.members;
      var at: nat :| at <= |members|;
      InsertBag(members, at, Pair(key, value));
      var full := members[..at] + [Pair(key, value)] + members[at..];
      OnlyOne(cells, c, Live(cells[c].refcount, Obj(full)));
      Take(c, Obj(full), multiset{value});
    }

    /** json_object_del */
    method ObjectDel(c: Id, key: bytes) returns (rc: int)
      requires Valid() && c < |cells| && Rooted(cells, owned, c)
      modifies this
      ensures Valid() && owned == old(owned)
      ensures rc == if IsObject(old(cells)[c]) && HasKey(old(cells)[c].payload.members, key) then 0 else -1
      ensures rc == 0 ==> c < |cells| && IsObject(cells[c]) && Becomes(old(cells), cells, c, cells[c].payload)
      ensures rc == 0 ==> WasDeleted(old(cells[c].payload.members), cells[c].payload.members, key)
      ensures rc != 0 ==> cells == old(cells)
      ensures Rooted(cells, owned, c) && (Acyclic(old(cells)) ==> Acyclic(cells))
    {
      hide Conserved, Acyclic, Leads, Rooted, OnCycle, Fewer;
      if !IsObject(cells[c]) {
        return -1;
      }
      var members := cells[c].payload.members;
      var at := FindKey(members, key);
      if at == |members| {
        return -1;
      }
      ReplaceBag(members, at, members[at]);
      OffCycle(cells, c, members[at].value);
      Drop(c, Obj(members[..at] + members[at + 1..]), members[at].value);
      StillAcyclic(old(cells), cells);
      StillRooted(old(cells), cells, owned, c);
      rc := 0;
    }

    /** json_object_clear */
    method ObjectClear(c: Id) returns (rc: int)
      requires Valid() && c < |cells| && Rooted(cells, owned, c)
      modifies this
      ensures Valid() && owned == old(owned)
      ensures rc == if IsObject(old(cells)[c]) then 0 else -1
      ensures rc == 0 ==> Becomes(old(cells), cells, c, Obj([]))
      ensures rc != 0 ==> cells == old(cells)
      ensures Rooted(cells, owned, c) && (Acyclic(old(cells)) ==> Acyclic(cells))
    {
      hide Valid, Acyclic, Leads, Rooted, OnCycle, Fewer, Values, Shrinks;
      if !IsObject(cells[c]) {
        return -1;
      }
      NothingYet(cells, c);
      while cells[c].payload.members != []
        invariant Valid() && Rooted(cells, owned, c) && owned == old(owned) && Others(old(cells), cells, c)
        invariant IsObject(cells[c]) && Fewer(old(cells), cells)
        invariant !OnCycle(old(cells), c) ==> cells[c].refcount == old(cells[c].refcount)
        decreases |cells[c].payload.members|
      {
        var members := cells[c].payload.members;
        ReplaceBag(members, 0, members[0]);
        ghost var was := cells;
        assert members[..0] + members[1..] == members[1..];
        OffCycleFewer(old(cells), cells, c, members[0].value);
        Drop(c, Obj(members[1..]), members[0].value);
        DropAgain(old(cells), was, cells, owned, c);
      }
      StillAcyclic(old(cells), cells);
      rc := 0;
    }
  }

  predicate IsArray(c: Cell) {
    c.Live? && c.payload.Arr?
  }

  predicate IsObject(c: Cell) {
    c.Live? && c.payload.Obj?
  }

  /** The reference a function named `_new` takes over, whether it succeeds or not. */
  function Stolen(value: Option<Id>): multiset<Id> {
    if value.Some? then multiset{value.value} else multiset{}
  }

  function Everything(n: nat): (r: set<Id>)
    ensures forall i :: i in r <==> 0 <= i < n
  {
    if n == 0 then {} else Everything(n - 1) + {n - 1}
  }

  /** Apart from `c`, cells only count down or are freed. */
  predicate Others(before: seq<Cell>, after: seq<Cell>, c: Id) {
    && |before| == |after| && c < |before|
    && forall i :: 0 <= i < |before| && i != c ==> Shrinks(before[i], after[i], true)
  }

  predicate SamePayload(b: Cell, a: Cell) {
    a == b || (b.Live? && a.Live? && a.payload == b.payload)
  }

  lemma OthersTwice(a: seq<Cell>, b: seq<Cell>, d: seq<Cell>, c: Id)
    requires Others(a, b, c) && Others(b, d, c)
    ensures Others(a, d, c)
  {
    forall i | 0 <= i < |a| && i != c
      ensures Shrinks(a[i], d[i], true)
    {
      assert Shrinks(a[i], b[i], true) && Shrinks(b[i], d[i], true);
    }
  }

  /**
   * `c` holds the new payload, and the others only count down or are freed. Its own count stays, unless it was on
   * a cycle.
   */
  ghost predicate Becomes(before: seq<Cell>, after: seq<Cell>, c: Id, p: Payload) {
    && Others(before, after, c)
    && after[c].Live? && after[c].payload == p
    && (before[c].Live? && !OnCycle(before, c) ==> after[c].refcount == before[c].refcount)
  }

  lemma OnlyOne(cells: seq<Cell>, c: Id, cell: Cell)
    requires c < |cells| && cells[c].Live? && cell.Live? && cell.refcount == cells[c].refcount
    ensures Becomes(cells, cells[c := cell], c, cell.payload)
  {
  }

  lemma OneDropped(before: seq<Cell>, after: seq<Cell>, c: Id)
    requires c < |before| && |after| == |before| && after == before[c := after[c]]
    requires forall k :: k in Slots(after[c]) ==> k in Slots(before[c])
    requires !after[c].Dying?
    ensures Fewer(before, after) && (Settled(before) ==> Settled(after))
  {
  }

  /** The deletion that follows the emptying of a slot of `c`. */
  lemma AfterDrop(
      was: seq<Cell>, mid: seq<Cell>, after: seq<Cell>, owned: multiset<Id>, s: set<Id>, c: Id)
    requires Shrunk(mid, after, s) && Conserved(after, owned) && Fewer(was, mid) && Settled(mid)
    requires c < |was| && |mid| == |was| && mid == was[c := mid[c]] && mid[c].Live?
    requires Rooted(was, owned, c) && !was[c].Static?
    ensures Settled(after) && Others(was, after, c) && Fewer(was, after)
    ensures after[c].Live? && after[c].payload == mid[c].payload
    ensures c !in s ==> after[c] == mid[c]
    ensures forall v :: v in owned ==> (Leads(after, v, c) <==> Leads(was, v, c))
  {
    ShrunkFacts(mid, after, s);
    forall v | v in owned
      ensures Leads(after, v, c) <==> Leads(was, v, c)
    {
      LeadsBesides(was, v, c, mid[c]);
      OwnedLeads(mid, after, owned, s, v, c);
    }
    assert Rooted(after, owned, c);
    RootedAlive(after, owned, c);
    assert Shrinks(mid[c], after[c], c in s);
  }

  lemma OffCycle(cells: seq<Cell>, c: Id, x: Id)
    requires c < |cells| && cells[c].Live? && x in multiset(SlotsOf(cells[c].payload))
    ensures !OnCycle(cells, c) ==> !Leads(cells, x, c)
  {
    assert x in Slots(cells[c]);
  }

  lemma OffCycleFewer(before: seq<Cell>, cells: seq<Cell>, c: Id, x: Id)
    requires Fewer(before, cells) && c < |cells| && cells[c].Live? && x in multiset(SlotsOf(cells[c].payload))
    ensures !OnCycle(before, c) ==> !Leads(cells, x, c)
  {
    assert x in Slots(cells[c]);
    if Leads(cells, x, c) {
      LeadsFewer(before, cells, x, c);
    }
  }

  lemma NothingYet(cells: seq<Cell>, c: Id)
    requires c < |cells|
    ensures Fewer(cells, cells) && Others(cells, cells, c)
  {
  }

  lemma StillAcyclic(before: seq<Cell>, after: seq<Cell>)
    requires Fewer(before, after)
    ensures Acyclic(before) ==> Acyclic(after)
  {
    if Acyclic(before) {
      FewerAcyclic(before, after);
    }
  }

  lemma StillRooted(before: seq<Cell>, after: seq<Cell>, owned: multiset<Id>, c: Id)
    requires Rooted(before, owned, c) && |after| == |before| && !before[c].Static?
    requires forall v :: v in owned ==> (Leads(after, v, c) <==> Leads(before, v, c))
    ensures Rooted(after, owned, c)
  {
  }

  /** One more turn of a loop that empties `c`. */
  lemma DropAgain(first: seq<Cell>, before: seq<Cell>, after: seq<Cell>, owned: multiset<Id>, c: Id)
    requires Others(first, before, c) && Others(before, after, c) && !before[c].Static?
    requires Fewer(first, before) && Fewer(before, after) && Rooted(before, owned, c)
    requires forall v :: v in owned ==> (Leads(after, v, c) <==> Leads(before, v, c))
    ensures Others(first, after, c) && Fewer(first, after) && Rooted(after, owned, c)
  {
    OthersTwice(first, before, after, c);
    StillRooted(before, after, owned, c);
  }

  /** Counting references up changes nothing about what leads where. */
  lemma ExtendLinks(before: seq<Cell>, mid: seq<Cell>, after: seq<Cell>, c: Id, more: seq<Id>)
    requires |mid| == |before| && forall k :: 0 <= k < |mid| ==> SamePayload(before[k], mid[k])
    requires Acyclic(mid) ==> (Acyclic(after) <==> forall v :: v in multiset(more) ==> !Leads(mid, v, c))
    ensures Acyclic(before) ==> (Acyclic(after) <==> forall k :: k in more ==> !Leads(before, k, c))
  {
    forall k | 0 <= k < |mid|
      ensures Slots(mid[k]) == Slots(before[k])
    {
      assert SamePayload(before[k], mid[k]);
    }
    StillAcyclic(before, mid);
    forall v
      ensures Leads(mid, v, c) <==> Leads(before, v, c)
    {
      if Leads(mid, v, c) {
        LeadsFewer(before, mid, v, c);
      }
      if Leads(before, v, c) {
        LeadsFewer(mid, before, v, c);
      }
    }
    assert forall k :: k in multiset(more) <==> k in more;
  }

  lemma AllClosed(cells: seq<Cell>, owned: multiset<Id>)
    requires Conserved(cells, owned)
    ensures ClosedUnder(cells, Everything(|cells|))
  {
  }

  lemma LessHeld(b: Cell, a: Cell, x: Id)
    requires b.Live? && a.Live? && multiset(SlotsOf(b.payload)) == multiset(SlotsOf(a.payload)) + multiset{x}
    ensures multiset(Slots(b)) == multiset(Slots(a)) + multiset{x}
    ensures forall k :: k in Slots(a) ==> k in Slots(b)
    ensures x in Slots(b)
  {
    SameBag(SlotsOf(b.payload), SlotsOf(a.payload), multiset{x});
  }

  lemma ShrunkFacts(before: seq<Cell>, after: seq<Cell>, s: set<Id>)
    requires Shrunk(before, after, s)
    ensures |after| == |before|
    ensures forall i :: 0 <= i < |after| ==> Shrinks(before[i], after[i], i in s)
    ensures Fewer(before, after)
    ensures Settled(before) ==> Settled(after)
  {
    forall i | 0 <= i < |after|
      ensures after[i].Dying? ==> before[i].Dying?
      ensures forall k :: k in Slots(after[i]) ==> k in Slots(before[i])
    {
      assert Shrinks(before[i], after[i], i in s);
    }
  }

  /** An element of a live array is alive. */
  lemma Element(cells: seq<Cell>, owned: multiset<Id>, d: Id, items: seq<Id>, i: nat)
    requires Conserved(cells, owned) && d < |cells| && cells[d].Live? && cells[d].payload == Arr(items) && i < |items|
    ensures items[i] < |cells| && (cells[items[i]].Live? || cells[items[i]].Static?)
  {
    assert items[i] in Slots(cells[d]);
    HeldSlot(cells, d, items[i]);
    assert Balanced(cells, owned, items[i]);
  }

  // ---- members ----

  predicate HasKey(members: seq<Pair>, key: bytes) {
    exists i :: 0 <= i < |members| && members[i].key == key
  }

  method FindKey(members: seq<Pair>, key: bytes) returns (at: nat)
    ensures at <= |members| && (at < |members| <==> HasKey(members, key))
    ensures at < |members| ==> members[at].key == key
  {
    at := 0;
    while at < |members|
      invariant at <= |members| && forall i :: 0 <= i < at ==> members[i].key != key
    {
      if members[at].key == key {
        return;
      }
      at := at + 1;
    }
  }

  /** The pair of the key has the new value, or a new pair has been put in somewhere. */
  predicate WasSet(before: seq<Pair>, after: seq<Pair>, key: bytes, value: Id) {
    if HasKey(before, key) then
      exists i :: 0 <= i < |before| && before[i].key == key && after == before[i := Pair(key, value)]
    else
      exists i :: 0 <= i <= |before| && after == before[..i] + [Pair(key, value)] + before[i..]
  }

  predicate WasDeleted(before: seq<Pair>, after: seq<Pair>, key: bytes) {
    exists i :: 0 <= i < |before| && before[i].key == key && after == before[..i] + before[i + 1..]
  }

  lemma {:induction false} ValuesJoin(a: seq<Pair>, b: seq<Pair>)
    ensures Values(a + b) == Values(a) + Values(b)
  {
  }

  lemma SplitBag(a: seq<Pair>, p: Pair, b: seq<Pair>)
    ensures multiset(Values(a + [p] + b)) == multiset(Values(a + b)) + multiset{p.value}
  {
    ValuesJoin(a, b);
    ValuesJoin(a + [p], b);
    ValuesJoin(a, [p]);
    assert Values([p]) == [p.value];
  }

  lemma ReplaceBag(members: seq<Pair>, at: nat, p: Pair)
    requires at < |members|
    ensures var hole := members[..at] + members[at + 1..];
      && multiset(Values(members)) == multiset(Values(hole)) + multiset{members[at].value}
      && multiset(Values(members[at := p])) == multiset(Values(hole)) + multiset{p.value}
  {
    hide Values;
    SplitBag(members[..at], members[at], members[at + 1..]);
    SplitBag(members[..at], p, members[at + 1..]);
    assert members[..at] + [members[at]] + members[at + 1..] == members;
    assert members[..at] + [p] + members[at + 1..] == members[at := p];
  }

  lemma InsertBag(members: seq<Pair>, at: nat, p: Pair)
    requires at <= |members|
    ensures multiset(Values(members[..at] + [p] + members[at..])) == multiset(Values(members)) + multiset{p.value}
  {
    hide *;
    var a, b := members[..at], members[at..];
    assert members == a + b;
    SplitBag(a, p, b);
  }

  lemma OwnStatic(cells: seq<Cell>, owned: multiset<Id>, v: Id)
    requires Conserved(cells, owned) && v < |cells| && cells[v].Static?
    ensures Conserved(cells, owned + multiset{v})
  {
    forall k | 0 <= k < |cells|
      ensures Balanced(cells, owned + multiset{v}, k)
    {
      assert Balanced(cells, owned, k);
    }
  }

  lemma DisownStatic(cells: seq<Cell>, owned: multiset<Id>, v: Id)
    requires Conserved(cells, owned) && v < |cells| && cells[v].Static?
    ensures Conserved(cells, owned - multiset{v})
  {
    forall k | 0 <= k < |cells|
      ensures Balanced(cells, owned - multiset{v}, k)
    {
      assert Balanced(cells, owned, k);
    }
  }

  /** What somebody owns is not freed or being freed. */
  lemma NotGone(cells: seq<Cell>, owned: multiset<Id>, v: Id)
    requires Conserved(cells, owned) && v in owned
    ensures v < |cells| && (cells[v].Live? || cells[v].Static?)
  {
    assert Balanced(cells, owned, v);
  }

  lemma SameSlotsClosed(before: seq<Cell>, after: seq<Cell>, s: set<Id>)
    requires |before| == |after| && ClosedUnder(before, s)
    requires forall i :: 0 <= i < |before| ==> Slots(after[i]) == Slots(before[i])
    ensures ClosedUnder(after, s)
  {
  }

  lemma FewerSlotsClosed(before: seq<Cell>, after: seq<Cell>, s: set<Id>)
    requires |before| == |after| && ClosedUnder(before, s)
    requires forall i, k :: 0 <= i < |before| && k in Slots(after[i]) ==> k in Slots(before[i])
    ensures ClosedUnder(after, s)
  {
  }

  lemma SlotInside(cells: seq<Cell>, s: set<Id>, v: Id, x: Id)
    requires ClosedUnder(cells, s) && v < |cells| && v in s && x in Slots(cells[v])
    ensures x in s
  {
  }

  /** A value in deletion is left alone by the deletions it sets off. */
  lemma ShrunkAfter(was: seq<Cell>, mid: seq<Cell>, after: seq<Cell>, s: set<Id>, v: Id)
    requires v < |mid| && mid[v].Dying? && Shrunk(was, mid[v := Freed], s) && Shrunk(mid, after, s)
    ensures |after| == |was| && after[v] == mid[v] && Shrunk(was, after[v := Freed], s)
  {
    assert Shrinks(mid[v], after[v], v in s);
    forall i | 0 <= i < |was|
      ensures Shrinks(was[i], after[v := Freed][i], i in s)
    {
      assert Shrinks(was[i], mid[v := Freed][i], i in s);
      assert Shrinks(mid[i], after[i], i in s);
    }
  }
}
