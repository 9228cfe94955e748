/** The value graph on the heap: json_t nodes that may be shared or form cycles (jansson-2.3/src/jansson_private.h). */
module ValueGraph {
  import opened Bytes
  import opened JsonValue

  datatype Payload =
    | PNull
    | PTrue
    | PFalse
    | PInteger(i: int)
    | PText(s: bytes)
    | PArray(items: seq<Node>)
    | PObject(entries: seq<Entry>)   // in hash-table order
  {
    predicate IsContainer() {
      PArray? || PObject?
    }

    predicate IsSimple() {
      PNull? || PTrue? || PFalse?
    }
  }

  datatype Entry = Entry(key: bytes, serial: nat, value: Node)

  class Node {
    var payload: Payload
    var visited: bool

    constructor (p: Payload)
      ensures payload == p && !visited
    {
      payload := p;
      visited := false;
    }
  }

  type Graph = map<Node, Payload>

  ghost function Snapshot(nodes: set<Node>): Graph
    reads nodes`payload
  {
    map n | n in nodes :: n.payload
  }

  function Values(entries: seq<Entry>): (r: seq<Node>)
    ensures |r| == |entries|
    ensures forall i :: 0 <= i < |r| ==> r[i] == entries[i].value
  {
    if entries == [] then [] else [entries[0].value] + Values(entries[1..])
  }

  function Kids(p: Payload): seq<Node> {
    match p
    case PArray(items) => items
    case PObject(entries) => Values(entries)
    case _ => []
  }

  ghost predicate Closed(g: Graph) {
    forall n :: n in g ==> Within(Kids(g[n]), g)
  }

  ghost predicate Within(older ns: seq<Node>, g: Graph) {
    forall i :: 0 <= i < |ns| ==> ns[i] in g
  }

  // ---- the tree a node unfolds to ----

  /** The tree at `n`, the containers in `open` being under way; None when one of them is met again. */
  ghost function Unfold(g: Graph, open: set<Node>, n: Node): Option<Tree>
    requires Closed(g) && n in g
    decreases g.Keys - open, 0
  {
    match g[n]
    case PNull => Some(Null)
    case PTrue => Some(True)
    case PFalse => Some(False)
    case PInteger(i) => Some(Integer(i))
    case PText(s) => Some(Text(s))
    case PArray(items) =>
      if n in open then None
      else
        assert Within(Kids(g[n]), g);
        var ts := UnfoldAll(g, open + {n}, items);
        if ts == None then None else Some(Array(ts.value))
    case PObject(entries) =>
      if n in open then None
      else
        assert Within(Kids(g[n]), g);
        var ts := UnfoldAll(g, open + {n}, Values(entries));
        if ts == None then None else Some(Object(Members(entries, ts.value)))
  }

  ghost function UnfoldAll(g: Graph, open: set<Node>, ns: seq<Node>): (r: Option<seq<Tree>>)
    requires Closed(g) && Within(ns, g)
    ensures r.Some? ==> |r.value| == |ns|
    ensures r.Some? <==> forall i :: 0 <= i < |ns| ==> Unfold(g, open, ns[i]).Some?
    ensures r.Some? ==> forall i :: 0 <= i < |ns| ==> r.value[i] == Unfold(g, open, ns[i]).value
    decreases g.Keys - open, 1, |ns|
  {
    if ns == [] then Some([])
    else
      var rest := UnfoldAll(g, open, ns[1..]);
      var first := Unfold(g, open, ns[0]);
      if first.Some? && rest.Some? then Some([first.value] + rest.value) else None
  }

  function Members(entries: seq<Entry>, ts: seq<Tree>): (r: seq<Member>)
    requires |ts| == |entries|
    ensures |r| == |ts|
    ensures forall i :: 0 <= i < |r| ==> r[i] == Member(entries[i].key, entries[i].serial, ts[i])
  {
    if entries == [] then [] else [Member(entries[0].key, entries[0].serial, ts[0])] + Members(entries[1..], ts[1..])
  }

  // ---- cycles ----

  /** Each node of `p` holds the next one as an element or member. */
  ghost predicate IsPath(g: Graph, older p: seq<Node>) {
    && p != []
    && Within(p, g)
    && forall i :: 0 <= i < |p| - 1 ==> p[i + 1] in Kids(g[p[i]])
  }

  ghost predicate Reaches(g: Graph, a: Node, b: Node) {
    exists p :: IsPath(g, p) && p[0] == a && p[|p| - 1] == b
  }

  /** `n` is reachable from itself in at least one step. */
  ghost predicate OnCycle(g: Graph, n: Node) {
    exists p :: IsPath(g, p) && |p| >= 2 && p[0] == n && p[|p| - 1] == n
  }

  ghost predicate Acyclic(g: Graph, n: Node) {
    forall m :: m in g && Reaches(g, n, m) ==> !OnCycle(g, m)
  }

  function ElementSet(p: seq<Node>): set<Node> {
    set i | 0 <= i < |p| :: p[i]
  }

  lemma UnfoldKid(g: Graph, open: set<Node>, n: Node, k: Node)
    requires Closed(g) && n in g && k in Kids(g[n])
    ensures k in g
    ensures Unfold(g, open, n).Some? ==> n !in open && Unfold(g, open + {n}, k).Some?
  {
    assert Within(Kids(g[n]), g);
    var i :| 0 <= i < |Kids(g[n])| && Kids(g[n])[i] == k;
  }

  lemma {:induction false} UnfoldAlong(g: Graph, open: set<Node>, p: seq<Node>)
    requires Closed(g) && IsPath(g, p) && Unfold(g, open, p[0]).Some?
    ensures Unfold(g, open + ElementSet(p[..|p| - 1]), p[|p| - 1]).Some?
    decreases |p|
  {
    hide Unfold, Kids;
    if |p| == 1 {
      assert open + ElementSet(p[..0]) == open;
    } else {
      UnfoldKid(g, open, p[0], p[1]);
      var q := p[1..];
      assert IsPath(g, q) by {
        forall i | 0 <= i < |q| - 1
          ensures q[i + 1] in Kids(g[q[i]])
        {
          assert q[i] == p[i + 1] && q[i + 1] == p[i + 2];
        }
      }
      UnfoldAlong(g, open + {p[0]}, q);
      assert p[..|p| - 1] == [p[0]] + q[..|q| - 1];
      assert open + {p[0]} + ElementSet(q[..|q| - 1]) == open + ElementSet(p[..|p| - 1]) by {
        SetOfCons(p[0], q[..|q| - 1]);
      }
    }
  }

  lemma SetOfCons(n: Node, p: seq<Node>)
    ensures ElementSet([n] + p) == {n} + ElementSet(p)
  {
    var q := [n] + p;
    forall x | x in {n} + ElementSet(p)
      ensures x in ElementSet(q)
    {
      if x == n {
        assert q[0] == n;
      } else {
        var i :| 0 <= i < |p| && p[i] == x;
        assert q[i + 1] == x;
      }
    }
  }

  lemma RevisitFails(g: Graph, p: seq<Node>, i: nat)
    requires Closed(g) && IsPath(g, p) && i < |p| - 1 && p[i] == p[|p| - 1]
    ensures Unfold(g, {}, p[0]).None?
  {
    if Unfold(g, {}, p[0]).Some? {
      UnfoldAlong(g, {}, p);
      assert p[..|p| - 1][i] == p[|p| - 1];
      assert p[i] in ElementSet(p[..|p| - 1]);
      assert p[i + 1] in Kids(g[p[i]]);
    }
  }

  lemma FailingKid(g: Graph, open: set<Node>, n: Node) returns (k: Node)
    requires Closed(g) && n in g && n !in open && Unfold(g, open, n).None?
    ensures k in g && k in Kids(g[n]) && Unfold(g, open + {n}, k).None?
  {
    var ks := Kids(g[n]);
    assert Within(ks, g);
    assert UnfoldAll(g, open + {n}, ks).None?;
    var i :| 0 <= i < |ks| && Unfold(g, open + {n}, ks[i]).None?;
    k := ks[i];
  }

  /** A failed unfolding exhibits a path that comes back to an open container or to itself. */
  lemma {:induction false} FailureHasPath(g: Graph, open: set<Node>, n: Node) returns (p: seq<Node>)
    requires Closed(g) && n in g && Unfold(g, open, n).None?
    ensures IsPath(g, p) && p[0] == n
    ensures p[|p| - 1] in open || p[|p| - 1] in p[..|p| - 1]
    decreases g.Keys - open
  {
    if n in open {
      p := [n];
    } else {
      hide Unfold, Kids, IsPath, Closed;
      var k := FailingKid(g, open, n);
      var q := FailureHasPath(g, open + {n}, k);
      p := [n] + q;
      ConsPath(g, n, q);
      ConsReturns(open, n, q);
    }
  }

  lemma ConsReturns(open: set<Node>, n: Node, q: seq<Node>)
    requires q != [] && (q[|q| - 1] in open + {n} || q[|q| - 1] in q[..|q| - 1])
    ensures var p := [n] + q; p[|p| - 1] in open || p[|p| - 1] in p[..|p| - 1]
  {
    var p, last := [n] + q, q[|q| - 1];
    assert p[..|p| - 1] == [n] + q[..|q| - 1];
  }

  lemma ConsPath(g: Graph, n: Node, q: seq<Node>)
    requires n in g && IsPath(g, q) && q[0] in Kids(g[n])
    ensures IsPath(g, [n] + q)
  {
    var p := [n] + q;
    forall i | 0 <= i < |p| - 1
      ensures p[i + 1] in Kids(g[p[i]])
    {
      if i > 0 {
        assert q[i] in Kids(g[q[i - 1]]);
      }
    }
  }

  lemma SlicePath(g: Graph, p: seq<Node>, lo: nat, hi: nat)
    requires IsPath(g, p) && lo < hi <= |p|
    ensures IsPath(g, p[lo..hi])
  {
    var q := p[lo..hi];
    forall i | 0 <= i < |q| - 1
      ensures q[i + 1] in Kids(g[q[i]])
    {
      assert p[lo + i + 1] in Kids(g[p[lo + i]]);
    }
  }

  lemma JoinPaths(g: Graph, p: seq<Node>, q: seq<Node>)
    requires IsPath(g, p) && IsPath(g, q) && p[|p| - 1] == q[0]
    ensures IsPath(g, p + q[1..])
  {
    var r := p + q[1..];
    forall i | 0 <= i < |r| - 1
      ensures r[i + 1] in Kids(g[r[i]])
    {
      if i >= |p| - 1 {
        var k := i - (|p| - 1);
        assert r[i] == q[k] && r[i + 1] == q[k + 1];
      } else {
        assert p[i + 1] in Kids(g[p[i]]);
      }
    }
  }

  /** Unfolding succeeds exactly when no node reachable from the root is reachable from itself. */
  lemma UnfoldIffAcyclic(g: Graph, n: Node)
    requires Closed(g) && n in g
    ensures Unfold(g, {}, n).Some? <==> Acyclic(g, n)
  {
    hide Unfold, Kids, Closed;
    if Unfold(g, {}, n).None? {
      var p := FailureHasPath(g, {}, n);
      var m := p[|p| - 1];
      var i :| 0 <= i < |p| - 1 && p[..|p| - 1][i] == m;
      SlicePath(g, p, i, |p|);
      assert p[i..|p|][0] == m && p[i..|p|][|p| - i - 1] == m;
      assert OnCycle(g, m);
      assert Reaches(g, n, m);
    }
    if !Acyclic(g, n) {
      var m :| m in g && Reaches(g, n, m) && OnCycle(g, m);
      var p :| IsPath(g, p) && p[0] == n && p[|p| - 1] == m;
      var q :| IsPath(g, q) && |q| >= 2 && q[0] == m && q[|q| - 1] == m;
      JoinPaths(g, p, q);
      var r := p + q[1..];
      assert r[|r| - 1] == m && r[|p| - 1] == m;
      RevisitFails(g, r, |p| - 1);
    }
  }
}
