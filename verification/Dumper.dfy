/**
 * The dumper (jansson-2.3/src/dump.c:43-446): visited flags set and cleared on the graph, text written through
 * a callback that may fail.
 */
module Dumpers {
  import opened Bytes
  import opened JsonValue
  import opened JsonOrder
  import opened JsonPrint
  import opened ValueGraph
  import StringCodec
  import Utf8

  /** A dump callback: `fails(k)` says that its k-th call returns an error. */
  class Sink {
    const fails: nat -> bool
    var calls: nat
    var out: bytes

    ghost predicate Reliable() {
      forall k :: !fails(k)
    }

    /** No call since the one numbered `from` has failed. */
    ghost predicate Quiet(from: nat)
      reads this
    {
      forall k :: from <= k < calls ==> !fails(k)
    }

    constructor (schedule: nat -> bool)
      ensures fails == schedule && calls == 0 && out == []
    {
      fails := schedule;
      calls := 0;
      out := [];
    }

    ghost predicate QuietUpto(from: nat, to: int) {
      forall k :: from <= k < to ==> !fails(k)
    }

    method Dump(text: bytes) returns (rc: int)
      modifies this
      ensures calls == old(calls) + 1
      ensures rc == (if fails(old(calls)) then -1 else 0)
      ensures out == old(out) + (if rc == 0 then text else [])
    {
      if fails(calls) {
        rc := -1;
      } else {
        rc := 0;
        out := out + text;
      }
      calls := calls + 1;
    }
  }

  /** dump_indent. */
  method DumpIndent(flags: Flags, depth: nat, space: bool, sink: Sink) returns (rc: int)
    modifies sink
    ensures sink.calls >= old(sink.calls)
    ensures sink.Quiet(old(sink.calls)) ==> rc == 0 && sink.out == old(sink.out) + Gap(flags, depth, space)
  {
    if flags.indent > 0 {
      rc := sink.Dump([NEWLINE]);
      if rc != 0 {
        return -1;
      }
      var i := 0;
      while i < depth
        invariant 0 <= i <= depth && sink.calls >= old(sink.calls)
        invariant sink.Quiet(old(sink.calls)) ==> sink.out == old(sink.out) + [NEWLINE] + Margin(flags.indent, i)
      {
        rc := sink.Dump(Spaces(flags.indent));
        if rc != 0 {
          return -1;
        }
        Assoc(old(sink.out) + [NEWLINE], Margin(flags.indent, i), Spaces(flags.indent));
        i := i + 1;
      }
      Assoc(old(sink.out), [NEWLINE], Margin(flags.indent, depth));
    } else if space && !flags.compact {
      rc := sink.Dump([SPACE]);
      return rc;
    }
    rc := 0;
  }

  /**
   * dump_string. `str`, `pos` and `end` are indices into the C string. With any sink: it stops at the first call
   * that fails, with the text up to there, and otherwise fails exactly on a string that is not valid UTF-8.
   */
  method DumpString(s: bytes, ascii: bool, sink: Sink) returns (rc: int)
    modifies sink
    ensures sink.calls > old(sink.calls) && sink.QuietUpto(old(sink.calls), sink.calls - 1)
    ensures rc == 0 <==> PrintString(s, ascii).ok && sink.Quiet(old(sink.calls))
    ensures sink.Quiet(old(sink.calls)) ==> sink.out == old(sink.out) + PrintString(s, ascii).text
    ensures old(sink.out) <= sink.out <= old(sink.out) + PrintString(s, ascii).text
  {
    hide Emit, Escape, PrintString;
    ghost var goal, target := Emit(s, [], ascii), PrintString(s, ascii).text;
    Quoted(sink.out, s, ascii);
    rc := sink.Dump([QUOTE]);
    if rc != 0 {
      return -1;
    }
    var str, last := 0, false;
    assert s[0..] == s;
    while !last
      invariant 0 <= str <= |s| && sink.calls > old(sink.calls) && sink.Quiet(old(sink.calls))
      invariant old(sink.out) <= sink.out
      invariant !last ==> Emit(s[str..], [], ascii).ok == goal.ok
      invariant !last ==> sink.out + Emit(s[str..], [], ascii).text == old(sink.out) + [QUOTE] + goal.text
      invariant last ==> goal.ok && sink.out == old(sink.out) + [QUOTE] + goal.text
      decreases !last, |s| - str
    {
      rc, str, last := DumpPiece(s, str, ascii, sink);
      if rc != 0 {
        SoFar(old(sink.out), sink.out, s, ascii);
        return -1;
      }
    }
    rc := sink.Dump([QUOTE]);
    assert sink.out + [] == sink.out;
    SoFar(old(sink.out), sink.out, s, ascii);
  }

  /** One turn of dump_string: the characters that need no escape, and the escape behind them unless it is the last. */
  method DumpPiece(s: bytes, str: nat, ascii: bool, sink: Sink) returns (rc: int, next: nat, last: bool)
    requires str <= |s|
    modifies sink
    ensures sink.calls >= old(sink.calls) && sink.QuietUpto(old(sink.calls), sink.calls - 1)
    ensures next <= |s| && (rc == 0 && !last ==> str < next)
    ensures old(sink.out) <= sink.out <= old(sink.out) + Emit(s[str..], [], ascii).text
    ensures rc == 0 ==>
      sink.Quiet(old(sink.calls)) && Emit(s[str..], [], ascii).ok == (last || Emit(s[next..], [], ascii).ok)
    ensures rc == 0 ==>
      sink.out + (if last then [] else Emit(s[next..], [], ascii).text) ==
        old(sink.out) + Emit(s[str..], [], ascii).text
    ensures rc != 0 && sink.Quiet(old(sink.calls)) ==>
      !Emit(s[str..], [], ascii).ok && sink.out == old(sink.out) + Emit(s[str..], [], ascii).text
  {
    hide Emit, Escape;
    last := false;
    next := str;
    var ok, pos, end, cp := Scan(s, str, ascii);
    if !ok {
      assert sink.out + [] == sink.out;
      return -1, next, last;
    }
    ghost var escape := if end == pos then [] else Escape(cp);
    ghost var tail := if end == pos then [] else Emit(s[end..], [], ascii).text;
    Pieces(sink.out, s[str..pos], escape, tail);
    assert Emit(s[str..], [], ascii).text == s[str..pos] + escape + tail;
    if pos != str {
      rc := sink.Dump(s[str..pos]);
      if rc != 0 {
        return -1, next, last;
      }
    } else {
      assert s[str..pos] == [];
    }
    next := end;
    if end == pos {
      last := true;
      assert sink.out + [] == sink.out;
      return 0, next, last;
    }
    rc := sink.Dump(Escape(cp));
    if rc != 0 {
      return -1, next, last;
    }
  }

  lemma Pieces(out: bytes, plain: bytes, escape: bytes, tail: bytes)
    ensures out + (plain + escape + tail) == out + plain + escape + tail
    ensures out <= out + plain <= out + plain + escape
    ensures out + plain <= out + (plain + escape + tail)
    ensures out + plain + escape <= out + (plain + escape + tail)
  {
    Regroup(out, plain, escape, tail);
  }

  /** The text of a string starts with a quote and ends with one if all of it could be written. */
  lemma Quoted(out: bytes, s: bytes, ascii: bool)
    ensures var e, p := Emit(s, [], ascii), PrintString(s, ascii);
      && p.ok == e.ok && out <= out + [QUOTE] <= out + p.text
      && out + p.text == out + [QUOTE] + e.text + if e.ok then [QUOTE] else []
  {
    hide Emit;
    var e := Emit(s, [], ascii);
    Close(out, e.text, if e.ok then [QUOTE] else []);
    assert out + PrintString(s, ascii).text == out + [QUOTE] + (e.text + if e.ok then [QUOTE] else []);
  }

  /** What has been written is a prefix of the text. */
  lemma SoFar(before: bytes, out: bytes, s: bytes, ascii: bool)
    ensures var e, p := Emit(s, [], ascii), PrintString(s, ascii);
      && (out <= before + [QUOTE] + e.text ==> out <= before + p.text)
      && (!e.ok && out == before + [QUOTE] + e.text ==> out == before + p.text)
      && (e.ok && out == before + [QUOTE] + e.text + [QUOTE] ==> out == before + p.text)
  {
    hide Emit, PrintString;
    Quoted(before, s, ascii);
    assert before + [QUOTE] + Emit(s, [], ascii).text + [] == before + [QUOTE] + Emit(s, [], ascii).text;
  }

  lemma Regroup(a: bytes, b: bytes, c: bytes, d: bytes)
    ensures a + (b + c + d) == a + b + c + d
  {
  }

  lemma Close(out: bytes, body: bytes, quote: bytes)
    ensures out + ([QUOTE] + body + quote) == out + [QUOTE] + body + quote
  {
    Regroup(out, [QUOTE], body, quote);
  }

  /** The inner loop of dump_string: passes over what needs no escape to `pos`; `end` is behind the character met. */
  method Scan(s: bytes, str: nat, ascii: bool) returns (ok: bool, pos: nat, end: nat, cp: int)
    requires str <= |s|
    ensures ok ==> str <= pos <= end <= |s| && (end == pos ==> end == |s|)
    ensures ok && end != pos ==> Utf8.IsScalar(cp) && end > str
    ensures var e := Emit(s[str..], [], ascii);
      && (!ok ==> e == Emitted([], false))
      && (ok && end == pos ==> e == Emitted(s[str..pos], true))
      && (ok && end != pos ==> var rest := Emit(s[end..], [], ascii);
        e == Emitted(s[str..pos] + Escape(cp) + rest.text, rest.ok))
  {
    pos, end, cp := str, str, 0;
    assert s[str..pos] == [];
    while end < |s|
      invariant str <= pos == end <= |s|
      invariant Emit(s[str..], [], ascii) == Emit(s[pos..], s[str..pos], ascii)
    {
      var c := Utf8.Iterate(s, pos);
      if c == None {
        return false, pos, end, cp;
      }
      Utf8.EncodeInvertsDecode(s[pos..]);
      end := pos + c.value.size;
      cp := c.value.cp;
      assert s[pos..][c.value.size..] == s[end..];
      if cp == 92 || cp == 34 || cp < 0x20 {
        return true, pos, end, cp;
      }
      if ascii && cp > 0x7F {
        return true, pos, end, cp;
      }
      assert s[str..pos] + s[pos..][..c.value.size] == s[str..end];
      pos := end;
    }
    ok := true;
  }

  // ---- the value graph ----

  ghost function Visited(nodes: set<Node>): set<Node>
    reads nodes
  {
    set n | n in nodes && n.visited
  }

  /** The hash table keeps keys and serials distinct in every object. */
  ghost predicate Keyed(g: Graph) {
    forall n :: n in g && g[n].PObject? ==> DistinctEntries(g[n].entries)
  }

  predicate DistinctEntries(es: seq<Entry>) {
    forall i, j :: 0 <= i < j < |es| ==> es[i].key != es[j].key && es[i].serial != es[j].serial
  }

  /** `n` can be written: no container met twice on the way down, every string value valid. */
  ghost predicate Dumps(g: Graph, open: set<Node>, n: Node)
    requires Closed(g) && n in g
  {
    Unfold(g, open, n).Some? && Printable(Unfold(g, open, n).value)
  }

  ghost function TextOf(g: Graph, open: set<Node>, n: Node, flags: Flags, depth: nat): bytes
    requires Closed(g) && n in g && Dumps(g, open, n)
  {
    Print(Reorder(Unfold(g, open, n).value, OrderOf(flags)), flags, depth)
  }

  /** The key table of an object, as collected by iterating over it. */
  function EntryTable(es: seq<Entry>): (r: seq<Member>)
    ensures |r| == |es|
    ensures forall i :: 0 <= i < |r| ==> r[i] == Member(es[i].key, es[i].serial, Null)
  {
    if es == [] then [] else [Member(es[0].key, es[0].serial, Null)] + EntryTable(es[1..])
  }

  /** json_object_get. */
  function Lookup(es: seq<Entry>, key: bytes): (r: Option<Node>)
    ensures r.None? <==> forall i :: 0 <= i < |es| ==> es[i].key != key
    ensures r.Some? ==> exists i :: 0 <= i < |es| && es[i].key == key && es[i].value == r.value
  {
    if es == [] then None
    else if es[0].key == key then Some(es[0].value)
    else Lookup(es[1..], key)
  }

  /** The keys of an object in the order they are written. */
  function KeyOrder(es: seq<Entry>, flags: Flags): seq<Member> {
    Arrange(OrderOf(flags), EntryTable(es))
  }

  /** do_dump. `nodes` is a closed part of the heap around `n`, `g` what it holds. */
  method DoDump(n: Node, flags: Flags, depth: nat, sink: Sink, ghost nodes: set<Node>, ghost g: Graph) returns (rc: int)
    requires n in nodes && g == Snapshot(nodes) && Closed(g) && Keyed(g)
    modifies nodes`visited, sink
    ensures sink.calls >= old(sink.calls)
    ensures rc == 0 ==> Visited(nodes) == old(Visited(nodes))
    ensures Visited(nodes) <= old(Visited(nodes))
    ensures sink.Quiet(old(sink.calls)) ==> (rc == 0 <==> Dumps(g, old(Visited(nodes)), n))
    ensures sink.Quiet(old(sink.calls)) && rc == 0 ==>
      sink.out == old(sink.out) + TextOf(g, old(Visited(nodes)), n, flags, depth)
    decreases g.Keys - Visited(nodes), 4
  {
    hide Gap, PrintString, Separator, Emit, PrintItems, PrintMembers, Arrange;
    ghost var open := Visited(nodes);
    assert g[n] == n.payload;
    match n.payload
    case PNull => rc := sink.Dump(NULL_TEXT);
    case PTrue => rc := sink.Dump(TRUE_TEXT);
    case PFalse => rc := sink.Dump(FALSE_TEXT);
    case PInteger(i) => rc := sink.Dump(PrintInt(i));
    case PText(s) =>
      rc := DumpString(s, flags.ensureAscii, sink);
      PrintStringOk(s, flags.ensureAscii);
    case PArray(items) => rc := DumpContainer(n, flags, depth, sink, nodes, g);
    case PObject(entries) => rc := DumpContainer(n, flags, depth, sink, nodes, g);
  }

  /** The container cases of do_dump: the visited flag guards against coming back. */
  method DumpContainer(n: Node, flags: Flags, depth: nat, sink: Sink, ghost nodes: set<Node>, ghost g: Graph)
    returns (rc: int)
    requires n in nodes && g == Snapshot(nodes) && Closed(g) && Keyed(g) && n.payload.IsContainer()
    modifies nodes`visited, sink
    ensures sink.calls >= old(sink.calls)
    ensures rc == 0 ==> Visited(nodes) == old(Visited(nodes))
    ensures Visited(nodes) <= old(Visited(nodes))
    ensures sink.Quiet(old(sink.calls)) ==> (rc == 0 <==> Dumps(g, old(Visited(nodes)), n))
    ensures sink.Quiet(old(sink.calls)) && rc == 0 ==>
      sink.out == old(sink.out) + TextOf(g, old(Visited(nodes)), n, flags, depth)
    decreases g.Keys - Visited(nodes), 3
  {
    hide Unfold, UnfoldAll, Print, Gap, ItemsText, MembersText, TextOf, Dumps, AllDump, Members, Values;
    ghost var open := Visited(nodes);
    assert g[n] == n.payload && g.Keys == nodes;
    if n.visited {
      OpenFails(g, open, n);
      n.visited := false;
      return -1;
    }
    n.visited := true;
    assert Visited(nodes) == open + {n};
    assert g.Keys - (open + {n}) < g.Keys - open by {
      assert n in g.Keys - open;
    }
    var close: byte;
    rc, close := DumpInside(n, flags, depth, sink, nodes, g, open);
    ghost var now := Visited(nodes);
    n.visited := false;
    assert Visited(nodes) == now - {n};
    if rc == 0 {
      assert now - {n} == open;
      rc := sink.Dump([close]);
    }
  }

  /** A container under way, up to its closing bracket. */
  method DumpInside(
      n: Node, flags: Flags, depth: nat, sink: Sink, ghost nodes: set<Node>, ghost g: Graph, ghost open: set<Node>)
      returns (rc: int, close: byte)
    requires n in nodes && g == Snapshot(nodes) && Closed(g) && Keyed(g) && n.payload.IsContainer()
    requires n.visited && n !in open && Visited(nodes) == open + {n}
    modifies nodes`visited, sink
    ensures sink.calls >= old(sink.calls)
    ensures rc == 0 ==> Visited(nodes) == open + {n}
    ensures Visited(nodes) <= open + {n}
    ensures sink.Quiet(old(sink.calls)) ==> (rc == 0 <==> Dumps(g, open, n))
    ensures sink.Quiet(old(sink.calls)) && rc == 0 ==>
      sink.out + [close] == old(sink.out) + TextOf(g, open, n, flags, depth)
    decreases g.Keys - Visited(nodes), 10
  {
    hide Unfold, UnfoldAll, Print, Gap, ItemsText, MembersText, TextOf, Dumps, AllDump, Members, Values;
    assert g[n] == n.payload;
    if n.payload.PArray? {
      UnfoldArray(g, open, n, flags, depth, sink.out);
      rc := DumpArray(n, n.payload.items, flags, depth, sink, nodes, g);
      close := RBRACKET;
    } else {
      UnfoldObject(g, open, n, flags, depth, sink.out);
      rc := DumpObject(n, n.payload.entries, flags, depth, sink, nodes, g);
      close := RBRACE;
    }
  }

  lemma OpenFails(g: Graph, open: set<Node>, n: Node)
    requires Closed(g) && n in g && g[n].IsContainer() && n in open
    ensures !Dumps(g, open, n)
  {
  }

  lemma ArrayText(ts: seq<Tree>, flags: Flags, depth: nat)
    ensures Print(Reorder(Array(ts), OrderOf(flags)), flags, depth) ==
      [LBRACKET] + ItemsText(ts, flags, depth) + [RBRACKET]
  {
    hide PrintItems, Gap;
    assert Reorder(Array(ts), OrderOf(flags)) == Array(ReorderItems(ts, OrderOf(flags)));
  }

  lemma UnfoldArray(g: Graph, open: set<Node>, n: Node, flags: Flags, depth: nat, out: bytes)
    requires Closed(g) && n in g && g[n].PArray? && n !in open
    ensures Within(g[n].items, g)
    ensures Dumps(g, open, n) <==> AllDump(g, open + {n}, g[n].items)
    ensures Dumps(g, open, n) ==>
      var ts := UnfoldAll(g, open + {n}, g[n].items);
      ts.Some? &&
        out + [LBRACKET] + ItemsText(ts.value, flags, depth) + [RBRACKET] == out + TextOf(g, open, n, flags, depth)
  {
    hide PrintItems, Print, Gap, Reorder, ItemsText;
    assert Within(Kids(g[n]), g);
    var ts := UnfoldAll(g, open + {n}, g[n].items);
    assert AllDump(g, open + {n}, g[n].items) ==> ts.Some?;
    if Dumps(g, open, n) {
      var body := ItemsText(ts.value, flags, depth);
      ArrayText(ts.value, flags, depth);
      Regroup(out, [LBRACKET], body, [RBRACKET]);
    }
  }

  lemma ObjectText(ms: seq<Member>, flags: Flags, depth: nat)
    ensures Print(Reorder(Object(ms), OrderOf(flags)), flags, depth) ==
      [LBRACE] + MembersText(ms, flags, depth) + [RBRACE]
  {
    hide Arrange, PrintMembers;
    var order := OrderOf(flags);
    assert Reorder(Object(ms), order) == Object(Arrange(order, ReorderMembers(ms, order)));
  }

  lemma UnfoldObject(g: Graph, open: set<Node>, n: Node, flags: Flags, depth: nat, out: bytes)
    requires Closed(g) && n in g && g[n].PObject? && n !in open
    ensures Within(Values(g[n].entries), g)
    ensures Dumps(g, open, n) <==> AllDump(g, open + {n}, Values(g[n].entries))
    ensures Dumps(g, open, n) ==>
      var ts := UnfoldAll(g, open + {n}, Values(g[n].entries));
      ts.Some? &&
        out + [LBRACE] + MembersText(Members(g[n].entries, ts.value), flags, depth) + [RBRACE] ==
          out + TextOf(g, open, n, flags, depth)
  {
    hide Arrange, PrintMembers, Print, Gap;
    assert Within(Kids(g[n]), g);
    var ts := UnfoldAll(g, open + {n}, Values(g[n].entries));
    assert AllDump(g, open + {n}, Values(g[n].entries)) ==> ts.Some?;
    if Dumps(g, open, n) {
      var body := MembersText(Members(g[n].entries, ts.value), flags, depth);
      ObjectText(Members(g[n].entries, ts.value), flags, depth);
      Regroup(out, [LBRACE], body, [RBRACE]);
    }
  }

  lemma PrintStringOk(s: bytes, ascii: bool)
    ensures PrintString(s, ascii).ok <==> Utf8.Valid(s)
  {
    StringCodec.EmitOk(s, [], ascii);
  }

  /** The written elements of an array, between its brackets. */
  ghost function ItemsText(ts: seq<Tree>, flags: Flags, depth: nat): bytes {
    if ts == [] then []
    else Gap(flags, depth + 1, false) + PrintItems(ReorderItems(ts, OrderOf(flags)), flags, depth)
  }

  ghost predicate AllDump(g: Graph, open: set<Node>, ns: seq<Node>)
    requires Closed(g) && Within(ns, g)
  {
    forall i :: 0 <= i < |ns| ==> Dumps(g, open, ns[i])
  }

  lemma ItemsInside(g: Graph, n: Node)
    requires Closed(g) && n in g && g[n].PArray?
    ensures Within(g[n].items, g)
  {
    assert Within(Kids(g[n]), g);
  }

  /** The array case: the opening bracket and the elements. */
  method DumpArray(
        n: Node, items: seq<Node>, flags: Flags, depth: nat, sink: Sink, ghost nodes: set<Node>, ghost g: Graph)
        returns (rc: int)
    requires n in nodes && g == Snapshot(nodes) && Closed(g) && Keyed(g)
    requires n.visited && n.payload == PArray(items)
    modifies nodes`visited, sink
    ensures sink.calls >= old(sink.calls)
    ensures rc == 0 ==> Visited(nodes) == old(Visited(nodes))
    ensures Visited(nodes) <= old(Visited(nodes))
    ensures Within(items, g)
    ensures sink.Quiet(old(sink.calls)) ==> (rc == 0 <==> AllDump(g, old(Visited(nodes)), items))
    ensures sink.Quiet(old(sink.calls)) && rc == 0 ==>
      var ts := UnfoldAll(g, old(Visited(nodes)), items);
      ts.Some? && sink.out == old(sink.out) + [LBRACKET] + ItemsText(ts.value, flags, depth)
    decreases g.Keys - Visited(nodes), 6
  {
    hide Unfold, Print, Gap, After, Reorder, Printable, PrintItems, UnfoldAll, Visited, FirstDump, AllDump;
    hide Closed, Keyed;
    NothingLeft(flags, depth);
    ItemsInside(g, n);
    ghost var open := Visited(nodes);
    ghost var ts := WrittenItems(g, open, items, OrderOf(flags));
    rc := sink.Dump([LBRACKET]);
    if rc != 0 {
      return -1;
    }
    FirstEnds(g, open, items);
    if |items| == 0 {
      assert sink.out + [] == sink.out;
      return 0;
    }
    rc := DumpIndent(flags, depth + 1, false, sink);
    if rc != 0 {
      return -1;
    }
    ghost var before := sink.calls;
    ghost var target := sink.out + PrintItems(ts, flags, depth);
    FirstEnds(g, open, items);
    var i := 0;
    assert ts[0..] == ts;
    while i < |items|
      invariant 0 <= i <= |items|
      invariant Visited(nodes) == open && g == Snapshot(nodes) && sink.calls >= before
      invariant sink.Quiet(old(sink.calls)) ==> FirstDump(g, open, items, i)
      invariant sink.Quiet(old(sink.calls)) && AllDump(g, open, items) ==>
        sink.out + PrintItems(ts[i..], flags, depth) == target
    {
      ghost var out := sink.out;
      FirstStep(g, open, items, i);
      rc := DumpElement(items[i], i == |items| - 1, flags, depth, sink, nodes, g);
      if rc != 0 {
        return -1;
      }
      if AllDump(g, open, items) {
        ItemWritten(ts, i, flags, depth, out);
      }
      i := i + 1;
    }
    FirstEnds(g, open, items);
    assert AllDump(g, open, items) ==> ts[|items|..] == [];
    assert sink.out + [] == sink.out;
    Assoc(old(sink.out) + [LBRACKET], Gap(flags, depth + 1, false), PrintItems(ts, flags, depth));
    rc := 0;
  }

  /** The first `i` nodes can be written. */
  ghost predicate FirstDump(g: Graph, open: set<Node>, ns: seq<Node>, i: nat)
    requires Closed(g) && Within(ns, g) && i <= |ns|
  {
    forall k :: 0 <= k < i ==> Dumps(g, open, ns[k])
  }

  lemma FirstStep(g: Graph, open: set<Node>, ns: seq<Node>, i: nat)
    requires Closed(g) && Within(ns, g) && i < |ns|
    ensures FirstDump(g, open, ns, i + 1) <==> FirstDump(g, open, ns, i) && Dumps(g, open, ns[i])
    ensures AllDump(g, open, ns) ==> Dumps(g, open, ns[i])
  {
    hide Dumps;
  }

  lemma FirstEnds(g: Graph, open: set<Node>, ns: seq<Node>)
    requires Closed(g) && Within(ns, g)
    ensures FirstDump(g, open, ns, |ns|) <==> AllDump(g, open, ns)
    ensures FirstDump(g, open, ns, 0)
  {
  }

  lemma NothingLeft(flags: Flags, depth: nat)
    ensures PrintItems([], flags, depth) == [] && PrintMembers([], flags, depth) == []
  {
  }

  /** One element or member value and what follows it. */
  method DumpElement(n: Node, last: bool, flags: Flags, depth: nat, sink: Sink, ghost nodes: set<Node>, ghost g: Graph)
    returns (rc: int)
    requires n in nodes && g == Snapshot(nodes) && Closed(g) && Keyed(g)
    modifies nodes`visited, sink
    ensures sink.calls >= old(sink.calls)
    ensures rc == 0 ==> Visited(nodes) == old(Visited(nodes))
    ensures Visited(nodes) <= old(Visited(nodes))
    ensures sink.Quiet(old(sink.calls)) ==> (rc == 0 <==> Dumps(g, old(Visited(nodes)), n))
    ensures sink.Quiet(old(sink.calls)) && rc == 0 ==>
      sink.out == old(sink.out) + TextOf(g, old(Visited(nodes)), n, flags, depth + 1) + After(last, flags, depth)
    decreases g.Keys - Visited(nodes), 5
  {
    hide Dumps, TextOf, Visited, After;
    rc := DoDump(n, flags, depth + 1, sink, nodes, g);
    if rc != 0 {
      return -1;
    }
    rc := DumpAfter(last, flags, depth, sink);
  }

  /** The elements as they are written, once it is known that they can be. */
  ghost function WrittenItems(g: Graph, open: set<Node>, items: seq<Node>, order: Order): (r: seq<Tree>)
    requires Closed(g) && Within(items, g)
    ensures AllDump(g, open, items) ==>
      && UnfoldAll(g, open, items).Some?
      && r == ReorderItems(UnfoldAll(g, open, items).value, order)
      && |r| == |items|
      && forall i :: 0 <= i < |items| ==> r[i] == Reorder(Unfold(g, open, items[i]).value, order)
  {
    if UnfoldAll(g, open, items).Some? then ReorderItems(UnfoldAll(g, open, items).value, order) else []
  }

  lemma ItemWritten(ts: seq<Tree>, i: nat, flags: Flags, depth: nat, out: bytes)
    requires i < |ts|
    ensures out + PrintItems(ts[i..], flags, depth)
      == out + Print(ts[i], flags, depth + 1) + After(i == |ts| - 1, flags, depth)
         + PrintItems(ts[i + 1..], flags, depth)
  {
    var rest := ts[i..];
    assert rest[0] == ts[i] && rest[1..] == ts[i + 1..];
    var value, after, tail := Print(ts[i], flags, depth + 1), After(i == |ts| - 1, flags, depth),
      PrintItems(rest[1..], flags, depth);
    assert PrintItems(rest, flags, depth) == value + after + tail;
    hide *;
    Regroup(out, value, after, tail);
  }

  /** What follows an element or a member. */
  method DumpAfter(last: bool, flags: Flags, depth: nat, sink: Sink) returns (rc: int)
    modifies sink
    ensures sink.calls >= old(sink.calls)
    ensures sink.Quiet(old(sink.calls)) ==> rc == 0 && sink.out == old(sink.out) + After(last, flags, depth)
  {
    if !last {
      rc := sink.Dump([COMMA]);
      if rc != 0 {
        return -1;
      }
      rc := DumpIndent(flags, depth + 1, true, sink);
      Assoc(old(sink.out), [COMMA], Gap(flags, depth + 1, true));
    } else {
      rc := DumpIndent(flags, depth, false, sink);
    }
  }

  method DumpObject(
        n: Node, entries: seq<Entry>, flags: Flags, depth: nat, sink: Sink, ghost nodes: set<Node>, ghost g: Graph)
        returns (rc: int)
    requires n in nodes && g == Snapshot(nodes) && Closed(g) && Keyed(g)
    requires n.visited && n.payload == PObject(entries)
    modifies nodes`visited, sink
    ensures sink.calls >= old(sink.calls)
    ensures rc == 0 ==> Visited(nodes) == old(Visited(nodes))
    ensures Visited(nodes) <= old(Visited(nodes))
    ensures Within(Values(entries), g)
    ensures sink.Quiet(old(sink.calls)) ==> (rc == 0 <==> AllDump(g, old(Visited(nodes)), Values(entries)))
    ensures sink.Quiet(old(sink.calls)) && rc == 0 ==>
      var ts := UnfoldAll(g, old(Visited(nodes)), Values(entries));
      ts.Some? && sink.out == old(sink.out) + [LBRACE] + MembersText(Members(entries, ts.value), flags, depth)
    decreases g.Keys - Visited(nodes), 9
  {
    hide Gap, PrintMembers, UnfoldAll, Visited, Arrange, Members, Values, AllDump;
    NothingLeft(flags, depth);
    assert Within(Kids(g[n]), g) && Kids(g[n]) == Values(entries);
    rc := sink.Dump([LBRACE]);
    if rc != 0 {
      return -1;
    }
    if |entries| == 0 {
      FirstEnds(g, Visited(nodes), Values(entries));
      assert sink.out + [] == sink.out;
      return 0;
    }
    rc := DumpIndent(flags, depth + 1, false, sink);
    if rc != 0 {
      return -1;
    }
    ghost var ms := WrittenMembers(g, Visited(nodes), entries, OrderOf(flags));
    rc := DumpMembers(entries, flags, depth, sink, nodes, g);
    Assoc(old(sink.out) + [LBRACE], Gap(flags, depth + 1, false), PrintMembers(ms, flags, depth));
  }

  /** The two member loops: over the sorted key table, or along the hash table. */
  method DumpMembers(entries: seq<Entry>, flags: Flags, depth: nat, sink: Sink, ghost nodes: set<Node>, ghost g: Graph)
    returns (rc: int)
    requires g == Snapshot(nodes) && Closed(g) && Keyed(g)
    requires Within(Values(entries), g) && DistinctEntries(entries)
    modifies nodes`visited, sink
    ensures sink.calls >= old(sink.calls)
    ensures rc == 0 ==> Visited(nodes) == old(Visited(nodes))
    ensures Visited(nodes) <= old(Visited(nodes))
    ensures sink.Quiet(old(sink.calls)) ==> (rc == 0 <==> AllDump(g, old(Visited(nodes)), Values(entries)))
    ensures sink.Quiet(old(sink.calls)) && rc == 0 ==>
      var ms := WrittenMembers(g, old(Visited(nodes)), entries, OrderOf(flags));
      sink.out == old(sink.out) + PrintMembers(ms, flags, depth)
    decreases g.Keys - Visited(nodes), 8
  {
    hide WrittenMembers, Values, Visited, PrintMembers, FirstDump, AllDump, KeyOrder, OrderedValues, Snapshot,
      Closed, Keyed, DistinctEntries;
    NothingLeft(flags, depth);
    ghost var open := Visited(nodes);
    ghost var ms := WrittenMembers(g, open, entries, OrderOf(flags));
    ghost var vs := OrderedValues(entries, flags);
    OrderedInside(g, entries, flags);
    KeysCover(g, open, entries, flags);
    var keys := KeyOrder(entries, flags);
    ghost var target := sink.out + PrintMembers(ms, flags, depth);
    FirstEnds(g, open, vs);
    var i := 0;
    assert ms[0..] == ms;
    while i < |keys|
      invariant 0 <= i <= |keys|
      invariant Visited(nodes) == open && g == Snapshot(nodes) && sink.calls >= old(sink.calls)
      invariant sink.Quiet(old(sink.calls)) ==> FirstDump(g, open, vs, i)
      invariant sink.Quiet(old(sink.calls)) && AllDump(g, open, vs) ==>
        sink.out + PrintMembers(ms[i..], flags, depth) == target
    {
      rc := DumpMemberAt(entries, keys[i].key, i, flags, depth, sink, nodes, g);
      if rc != 0 {
        return -1;
      }
      i := i + 1;
    }
    assert AllDump(g, open, vs) ==> ms[|keys|..] == [];
    rc := 0;
  }

  /** One turn of a member loop: the key is the i-th in order, the value comes from a lookup or from the iterator. */
  method DumpMemberAt(
        entries: seq<Entry>, key: bytes, i: nat, flags: Flags, depth: nat, sink: Sink,
        ghost nodes: set<Node>, ghost g: Graph)
        returns (rc: int)
    requires g == Snapshot(nodes) && Closed(g) && Keyed(g)
    requires Within(Values(entries), g) && DistinctEntries(entries) && Within(OrderedValues(entries, flags), g)
    requires i < |entries| == |OrderedValues(entries, flags)| == |KeyOrder(entries, flags)| &&
      key == KeyOrder(entries, flags)[i].key
    modifies nodes`visited, sink
    ensures sink.calls >= old(sink.calls)
    ensures rc == 0 ==> Visited(nodes) == old(Visited(nodes))
    ensures Visited(nodes) <= old(Visited(nodes))
    ensures var open, vs := old(Visited(nodes)), OrderedValues(entries, flags);
      && (sink.Quiet(old(sink.calls)) && rc == 0 && FirstDump(g, open, vs, i) ==> FirstDump(g, open, vs, i + 1))
      && (sink.Quiet(old(sink.calls)) && rc != 0 ==> !AllDump(g, open, vs))
    ensures sink.Quiet(old(sink.calls)) && rc == 0 && AllDump(g, old(Visited(nodes)), OrderedValues(entries, flags)) ==>
      var ms := WrittenMembers(g, old(Visited(nodes)), entries, OrderOf(flags));
      && |ms| == |entries|
      && sink.out + PrintMembers(ms[i + 1..], flags, depth) == old(sink.out) + PrintMembers(ms[i..], flags, depth)
    decreases g.Keys - Visited(nodes), 7
  {
    hide WrittenMembers, Unfold, Reorder, Print, PrintString, Separator, After, PrintMembers, Values, Visited,
      FirstDump, AllDump, KeyOrder, OrderedValues, Lookup;
    ghost var open, vs := Visited(nodes), OrderedValues(entries, flags);
    ghost var j := OrderedValue(entries, flags, i);
    KeyFound(entries, flags, i);
    FirstStep(g, open, vs, i);
    KeysCover(g, open, entries, flags);
    var value := if flags.sortKeys || flags.preserveOrder then Lookup(entries, key).value else entries[i].value;
    rc := DumpMember(key, value, i == |entries| - 1, flags, depth, sink, nodes, g);
    if rc == 0 && AllDump(g, open, vs) {
      KeysMatch(g, open, entries, flags, i);
      MemberWritten(WrittenMembers(g, open, entries, OrderOf(flags)), i, flags, depth, old(sink.out));
    }
  }

  /** One member: the key, whose failure goes unnoticed, the separator, the value and what follows. */
  method DumpMember(
        key: bytes, value: Node, last: bool, flags: Flags, depth: nat, sink: Sink,
        ghost nodes: set<Node>, ghost g: Graph)
        returns (rc: int)
    requires value in nodes && g == Snapshot(nodes) && Closed(g) && Keyed(g)
    modifies nodes`visited, sink
    ensures sink.calls >= old(sink.calls)
    ensures rc == 0 ==> Visited(nodes) == old(Visited(nodes))
    ensures Visited(nodes) <= old(Visited(nodes))
    ensures sink.Quiet(old(sink.calls)) ==> (rc == 0 <==> Dumps(g, old(Visited(nodes)), value))
    ensures sink.Quiet(old(sink.calls)) && rc == 0 ==>
      sink.out == old(sink.out) + PrintString(key, flags.ensureAscii).text + Separator(flags)
        + TextOf(g, old(Visited(nodes)), value, flags, depth + 1) + After(last, flags, depth)
    decreases g.Keys - Visited(nodes), 6
  {
    hide Dumps, TextOf, Visited, After, PrintString;
    var ignored := DumpString(key, flags.ensureAscii, sink);
    rc := sink.Dump(Separator(flags));
    if rc != 0 {
      return -1;
    }
    rc := DumpElement(value, last, flags, depth, sink, nodes, g);
  }

  lemma LookupOwn(es: seq<Entry>, i: nat)
    requires DistinctEntries(es) && i < |es|
    ensures Lookup(es, es[i].key) == Some(es[i].value)
  {
  }

  /** Every key of the key table is a key of the object, and in stored order it is the key of its own entry. */
  lemma KeyFound(es: seq<Entry>, flags: Flags, i: nat)
    requires DistinctEntries(es) && i < |es|
    ensures |KeyOrder(es, flags)| == |es|
    ensures var key := KeyOrder(es, flags)[i].key;
      exists j :: 0 <= j < |es| && es[j].key == key && Lookup(es, key) == Some(es[j].value)
    ensures !flags.sortKeys && !flags.preserveOrder ==> Lookup(es, KeyOrder(es, flags)[i].key) == Some(es[i].value)
  {
    hide Insert;
    var keys := KeyOrder(es, flags);
    SameMembers(keys, EntryTable(es));
    assert keys[i] in EntryTable(es);
    var j :| 0 <= j < |es| && EntryTable(es)[j] == keys[i];
    LookupOwn(es, j);
    if !flags.sortKeys && !flags.preserveOrder {
      assert keys == EntryTable(es);
      LookupOwn(es, i);
    }
  }

  /** The values the keys of a key table name. */
  function ValuesFor(es: seq<Entry>, keys: seq<Member>): (r: seq<Node>)
    requires forall i :: 0 <= i < |keys| ==> Lookup(es, keys[i].key).Some?
    ensures |r| == |keys|
    ensures forall i :: 0 <= i < |r| ==> Lookup(es, keys[i].key) == Some(r[i])
  {
    if keys == [] then [] else [Lookup(es, keys[0].key).value] + ValuesFor(es, keys[1..])
  }

  lemma KeysFound(es: seq<Entry>, flags: Flags)
    requires DistinctEntries(es)
    ensures |KeyOrder(es, flags)| == |es|
    ensures forall i :: 0 <= i < |es| ==> Lookup(es, KeyOrder(es, flags)[i].key).Some?
  {
    hide Arrange, EntryTable, Lookup;
    assert |KeyOrder(es, flags)| == |EntryTable(es)|;
    forall i | 0 <= i < |es|
      ensures Lookup(es, KeyOrder(es, flags)[i].key).Some?
    {
      KeyFound(es, flags, i);
    }
  }

  /** The values in the order they are written. */
  ghost function OrderedValues(es: seq<Entry>, flags: Flags): (r: seq<Node>)
    requires DistinctEntries(es)
  {
    KeysFound(es, flags);
    ValuesFor(es, KeyOrder(es, flags))
  }

  /** The value written at `i` is the value of one entry. */
  lemma OrderedValue(es: seq<Entry>, flags: Flags, i: nat) returns (j: nat)
    requires DistinctEntries(es) && i < |es|
    ensures |KeyOrder(es, flags)| == |OrderedValues(es, flags)| == |es|
    ensures j < |es| && OrderedValues(es, flags)[i] == es[j].value && es[j].key == KeyOrder(es, flags)[i].key
    ensures Lookup(es, KeyOrder(es, flags)[i].key) == Some(es[j].value)
  {
    hide Arrange, EntryTable, Lookup, ValuesFor;
    KeysFound(es, flags);
    KeyFound(es, flags, i);
    var key := KeyOrder(es, flags)[i].key;
    j :| 0 <= j < |es| && es[j].key == key && Lookup(es, key) == Some(es[j].value);
  }

  lemma OrderedInside(g: Graph, es: seq<Entry>, flags: Flags)
    requires Closed(g) && Within(Values(es), g) && DistinctEntries(es)
    ensures |OrderedValues(es, flags)| == |es| == |KeyOrder(es, flags)| && Within(OrderedValues(es, flags), g)
  {
    hide KeyOrder, OrderedValues;
    assert |OrderedValues(es, flags)| == |es| == |KeyOrder(es, flags)| by { OrderedLength(es, flags); }
    forall i | 0 <= i < |es|
      ensures OrderedValues(es, flags)[i] in g
    {
      var j := OrderedValue(es, flags, i);
      assert Values(es)[j] == es[j].value;
    }
  }

  lemma OrderedLength(es: seq<Entry>, flags: Flags)
    requires DistinctEntries(es)
    ensures |OrderedValues(es, flags)| == |es| == |KeyOrder(es, flags)|
  {
    KeysFound(es, flags);
  }

  /** The values in written order are the values of the object. */
  lemma KeysCover(g: Graph, open: set<Node>, es: seq<Entry>, flags: Flags)
    requires Closed(g) && Within(Values(es), g) && DistinctEntries(es)
    requires Within(OrderedValues(es, flags), g)
    ensures AllDump(g, open, OrderedValues(es, flags)) <==> AllDump(g, open, Values(es))
  {
    hide Dumps, OrderedValues, KeyOrder, Lookup;
    OrderedLength(es, flags);
    var vs := OrderedValues(es, flags);
    if AllDump(g, open, vs) {
      forall j | 0 <= j < |es|
        ensures Dumps(g, open, Values(es)[j])
      {
        var i := WrittenAt(es, flags, j);
        assert vs[i] == Values(es)[j];
      }
    }
    if AllDump(g, open, Values(es)) {
      forall i | 0 <= i < |vs|
        ensures Dumps(g, open, vs[i])
      {
        var j := OrderedValue(es, flags, i);
        assert vs[i] == Values(es)[j];
      }
    }
  }

  lemma WrittenAt(es: seq<Entry>, flags: Flags, j: nat) returns (i: nat)
    requires DistinctEntries(es) && j < |es|
    ensures i < |OrderedValues(es, flags)| && OrderedValues(es, flags)[i] == es[j].value
  {
    hide Arrange;
    var keys := KeyOrder(es, flags);
    KeysFound(es, flags);
    SameMembers(keys, EntryTable(es));
    assert EntryTable(es)[j] in keys;
    i :| 0 <= i < |keys| && keys[i] == EntryTable(es)[j];
    LookupOwn(es, j);
  }

  lemma KeysMatch(g: Graph, open: set<Node>, es: seq<Entry>, flags: Flags, i: nat)
    requires Closed(g) && Within(Values(es), g) && DistinctEntries(es) && i < |es|
    requires Within(OrderedValues(es, flags), g) && i < |OrderedValues(es, flags)| == |KeyOrder(es, flags)|
    requires AllDump(g, open, Values(es))
    ensures var ms := WrittenMembers(g, open, es, OrderOf(flags));
      var v := OrderedValues(es, flags)[i];
      |ms| == |es| && Unfold(g, open, v).Some?
      && ms[i].key == KeyOrder(es, flags)[i].key && ms[i].value == Reorder(Unfold(g, open, v).value, OrderOf(flags))
  {
    hide *;
    OrderedLength(es, flags);
    var j := WrittenKey(g, open, es, flags, i);
    LookupOwn(es, j);
    var k := OrderedValue(es, flags, i);
    assert es[k].value == es[j].value;
    assert Values(es)[j] == es[j].value;
    UnfoldsAt(g, open, Values(es), j);
  }

  /** The member written at `i` is that of the entry with the i-th key. */
  lemma WrittenKey(g: Graph, open: set<Node>, es: seq<Entry>, flags: Flags, i: nat) returns (j: nat)
    requires Closed(g) && Within(Values(es), g) && DistinctEntries(es) && i < |es| == |KeyOrder(es, flags)|
    requires AllDump(g, open, Values(es))
    ensures var ms, ts := WrittenMembers(g, open, es, OrderOf(flags)), UnfoldAll(g, open, Values(es));
      && |ms| == |es| && ts.Some? && |ts.value| == |es| && j < |es|
      && ms[i].key == KeyOrder(es, flags)[i].key == es[j].key
      && ms[i].value == Reorder(ts.value[j], OrderOf(flags))
  {
    hide Insert, Arrange, Unfold, Dumps, OrderedValues, UnfoldAll;
    var order := OrderOf(flags);
    var ms := WrittenMembers(g, open, es, order);
    var ts := UnfoldAll(g, open, Values(es)).value;
    var rs := ReorderMembers(Members(es, ts), order);
    ArrangeKeys(order, rs);
    assert KeyTable(rs) == EntryTable(es);
    assert KeyTable(ms)[i] == KeyOrder(es, flags)[i];
    SameMembers(ms, rs);
    assert ms[i] in rs;
    j :| 0 <= j < |rs| && rs[j] == ms[i];
  }

  lemma UnfoldsAt(g: Graph, open: set<Node>, ns: seq<Node>, j: nat)
    requires Closed(g) && Within(ns, g) && j < |ns| && UnfoldAll(g, open, ns).Some?
    ensures Unfold(g, open, ns[j]) == Some(UnfoldAll(g, open, ns).value[j])
  {
  }

  /** The members as they are written, once it is known that they can be. */
  ghost function WrittenMembers(g: Graph, open: set<Node>, es: seq<Entry>, order: Order): (r: seq<Member>)
    requires Closed(g) && Within(Values(es), g)
    ensures AllDump(g, open, Values(es)) ==>
      && UnfoldAll(g, open, Values(es)).Some?
      && r == Arrange(order, ReorderMembers(Members(es, UnfoldAll(g, open, Values(es)).value), order))
      && |r| == |es|
  {
    var ts := UnfoldAll(g, open, Values(es));
    if ts.Some? then Arrange(order, ReorderMembers(Members(es, ts.value), order)) else []
  }

  lemma MemberWritten(ms: seq<Member>, i: nat, flags: Flags, depth: nat, out: bytes)
    requires i < |ms|
    ensures out + PrintMembers(ms[i..], flags, depth)
      == out + PrintString(ms[i].key, flags.ensureAscii).text + Separator(flags) + Print(ms[i].value, flags, depth + 1)
         + After(i == |ms| - 1, flags, depth) + PrintMembers(ms[i + 1..], flags, depth)
  {
    var rest := ms[i..];
    assert rest[0] == ms[i] && rest[1..] == ms[i + 1..];
    var key, sep := PrintString(ms[i].key, flags.ensureAscii).text, Separator(flags);
    var value, after, tail := Print(ms[i].value, flags, depth + 1), After(i == |ms| - 1, flags, depth),
      PrintMembers(rest[1..], flags, depth);
    assert PrintMembers(rest, flags, depth) == key + sep + value + after + tail;
    hide *;
    Assoc(out, key + sep + value + after, tail);
    Assoc(out, key + sep + value, after);
    Assoc(out, key + sep, value);
    Assoc(out, key, sep);
  }

  ghost function MembersText(ms: seq<Member>, flags: Flags, depth: nat): bytes {
    if ms == [] then []
    else
      var order := OrderOf(flags);
      Gap(flags, depth + 1, false) + PrintMembers(Arrange(order, ReorderMembers(ms, order)), flags, depth)
  }

  // ---- json_dump_callback ----

  ghost predicate BadText(g: Graph, m: Node) {
    m in g && g[m].PText? && !Utf8.Valid(g[m].s)
  }

  lemma {:induction false} PrintableAlong(g: Graph, open: set<Node>, p: seq<Node>)
    requires Closed(g) && IsPath(g, p) && Dumps(g, open, p[0])
    ensures !BadText(g, p[|p| - 1])
    decreases |p|
  {
    if |p| > 1 {
      UnfoldKid(g, open, p[0], p[1]);
      DumpsKid(g, open, p[0], p[1]);
      SlicePath(g, p, 1, |p|);
      PrintableAlong(g, open + {p[0]}, p[1..]);
    }
  }

  lemma DumpsKid(g: Graph, open: set<Node>, n: Node, k: Node)
    requires Closed(g) && n in g && k in Kids(g[n]) && Dumps(g, open, n)
    ensures k in g && Dumps(g, open + {n}, k)
  {
    hide Unfold, UnfoldAll;
    UnfoldKid(g, open, n, k);
    var ks := Kids(g[n]);
    assert Within(ks, g);
    var i :| 0 <= i < |ks| && ks[i] == k;
    PrintableKid(g, open, n, i);
  }

  lemma PrintableKid(g: Graph, open: set<Node>, n: Node, i: nat)
    requires Closed(g) && n in g && i < |Kids(g[n])| && Kids(g[n])[i] in g && Dumps(g, open, n)
    requires Unfold(g, open + {n}, Kids(g[n])[i]).Some?
    ensures Printable(Unfold(g, open + {n}, Kids(g[n])[i]).value)
  {
    var ks := Kids(g[n]);
    assert Within(ks, g);
    UnfoldsAt(g, open + {n}, ks, i);
    var ts := UnfoldAll(g, open + {n}, ks).value;
    if g[n].PObject? {
      assert Members(g[n].entries, ts)[i].value == ts[i];
    }
  }

  lemma {:induction false} UnprintableHasPath(g: Graph, open: set<Node>, n: Node) returns (p: seq<Node>)
    requires Closed(g) && n in g && Unfold(g, open, n).Some? && !Printable(Unfold(g, open, n).value)
    ensures IsPath(g, p) && p[0] == n && BadText(g, p[|p| - 1])
    decreases g.Keys - open
  {
    if g[n].PText? {
      p := [n];
    } else {
      var i := UnprintableKid(g, open, n);
      var q := UnprintableHasPath(g, open + {n}, Kids(g[n])[i]);
      ConsPath(g, n, q);
      p := [n] + q;
    }
  }

  lemma UnprintableKid(g: Graph, open: set<Node>, n: Node) returns (i: nat)
    requires Closed(g) && n in g && Unfold(g, open, n).Some? && !Printable(Unfold(g, open, n).value)
    requires !g[n].PText?
    ensures n !in open && i < |Kids(g[n])| && Kids(g[n])[i] in g
    ensures Unfold(g, open + {n}, Kids(g[n])[i]).Some? && !Printable(Unfold(g, open + {n}, Kids(g[n])[i]).value)
  {
    var ks := Kids(g[n]);
    assert Within(ks, g);
    var ts := UnfoldAll(g, open + {n}, ks).value;
    if g[n].PArray? {
      i :| 0 <= i < |ts| && !Printable(ts[i]);
    } else {
      var ms := Members(g[n].entries, ts);
      i :| 0 <= i < |ms| && !Printable(ms[i].value);
      assert ms[i].value == ts[i];
    }
    UnfoldsAt(g, open + {n}, ks, i);
  }

  /** Every string value reachable from `n` is valid UTF-8. */
  ghost predicate ValidTexts(g: Graph, n: Node) {
    forall m :: m in g && Reaches(g, n, m) ==> !BadText(g, m)
  }

  /** A value can be dumped exactly when no container is reachable from itself and all strings are valid. */
  lemma DumpsIff(g: Graph, n: Node)
    requires Closed(g) && n in g
    ensures Dumps(g, {}, n) <==> Acyclic(g, n) && ValidTexts(g, n)
  {
    UnfoldIffAcyclic(g, n);
    if Dumps(g, {}, n) {
      forall m | m in g && Reaches(g, n, m)
        ensures !BadText(g, m)
      {
        var p :| IsPath(g, p) && p[0] == n && p[|p| - 1] == m;
        PrintableAlong(g, {}, p);
      }
    } else if Unfold(g, {}, n).Some? {
      var p := UnprintableHasPath(g, {}, n);
      assert Reaches(g, n, p[|p| - 1]);
    }
  }

  /**
   * json_dump_callback: on any graph, cyclic or shared, and with any sink, it ends with every visited flag
   * clear; unless one of the calls made fails it succeeds exactly on acyclic values with valid strings, and then
   * it has written the text of the tree the graph unfolds to.
   */
  method DumpCallback(n: Node, flags: Flags, sink: Sink, ghost nodes: set<Node>) returns (rc: int)
    requires n in nodes && Closed(Snapshot(nodes)) && Keyed(Snapshot(nodes))
    requires Visited(nodes) == {}
    modifies nodes`visited, sink
    ensures sink.calls >= old(sink.calls)
    ensures Visited(nodes) == {}
    ensures sink.Quiet(old(sink.calls)) ==>
      var g := Snapshot(nodes);
      (rc == 0 <==> (flags.encodeAny || n.payload.IsContainer()) && Acyclic(g, n) && ValidTexts(g, n))
    ensures sink.Quiet(old(sink.calls)) && rc == 0 ==>
      var t := Unfold(Snapshot(nodes), {}, n);
      t.Some? && sink.out == old(sink.out) + Dump(t.value, flags)
  {
    hide Unfold, Acyclic, ValidTexts, Print, Reorder;
    ghost var g := Snapshot(nodes);
    DumpsIff(g, n);
    if !flags.encodeAny {
      if !n.payload.IsContainer() {
        return -1;
      }
    }
    rc := DoDump(n, flags, 0, sink, nodes, g);
    assert Snapshot(nodes) == g;
  }

  /** Objects kept by the hash table unfold to well-keyed trees. */
  lemma {:induction false} UnfoldKeyed(g: Graph, open: set<Node>, n: Node)
    requires Closed(g) && Keyed(g) && n in g && Unfold(g, open, n).Some?
    ensures WellKeyed(Unfold(g, open, n).value)
    decreases g.Keys - open
  {
    if g[n].IsContainer() {
      var ks := Kids(g[n]);
      assert Within(ks, g);
      var ts := UnfoldAll(g, open + {n}, ks).value;
      forall i | 0 <= i < |ts|
        ensures WellKeyed(ts[i])
      {
        UnfoldsAt(g, open + {n}, ks, i);
        UnfoldKeyed(g, open + {n}, ks[i]);
      }
      if g[n].PObject? {
        KeyedMembers(g[n].entries, ts);
      }
    }
  }

  lemma KeyedMembers(es: seq<Entry>, ts: seq<Tree>)
    requires |es| == |ts| && DistinctEntries(es)
    requires forall i :: 0 <= i < |ts| ==> WellKeyed(ts[i])
    ensures WellKeyed(Object(Members(es, ts)))
  {
  }
}
