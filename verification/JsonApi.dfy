/** The heap dumper, the text it writes and the loader, put together. */
module JsonApi {
  import opened Bytes
  import opened JsonValue
  import opened JsonOrder
  import opened JsonPrint
  import opened JsonGrammar
  import opened JsonRoundTrip
  import opened ValueGraph
  import opened Dumpers
  import HashTables
  import JsonObjects
  import Lexers
  import Parsers

  /** Every string and key came through the checked API, and integers are 64-bit. */
  ghost predicate Spoken(g: Graph) {
    forall n :: n in g ==>
      match g[n]
      case PInteger(i) => INT_MIN <= i <= INT_MAX
      case PText(s) => IsCString(s)
      case PObject(es) => forall i :: 0 <= i < |es| ==> IsCString(es[i].key)
      case _ => true
  }

  lemma {:induction false} UnfoldSpeakable(g: Graph, open: set<Node>, n: Node)
    requires Closed(g) && Spoken(g) && n in g && Unfold(g, open, n).Some?
    ensures Speakable(Unfold(g, open, n).value)
    decreases g.Keys - open
  {
    if g[n].IsContainer() {
      var ks := Kids(g[n]);
      assert Within(ks, g);
      var ts := UnfoldAll(g, open + {n}, ks).value;
      forall i | 0 <= i < |ts|
        ensures Speakable(ts[i])
      {
        UnfoldsAt(g, open + {n}, ks, i);
        UnfoldSpeakable(g, open + {n}, ks[i]);
      }
    }
  }

  /** Valid C strings are all the dumper asks of a text. */
  lemma {:induction false} SpokenValid(g: Graph, n: Node)
    requires Closed(g) && Spoken(g) && n in g
    ensures ValidTexts(g, n)
  {
  }

  /** An acyclic value built by the API loads back from its own text, whatever the flags on both sides. */
  lemma DumpedLoads(g: Graph, n: Node, flags: Flags, lf: LoadFlags)
    requires Closed(g) && Keyed(g) && Spoken(g) && n in g && Acyclic(g, n)
    requires g[n].IsContainer() || lf.decodeAny
    ensures Unfold(g, {}, n).Some?
    ensures var t := Unfold(g, {}, n).value; NulFree(Dump(t, flags)) && Load(Dump(t, flags), lf) == Some(Meaning(t))
  {
    UnfoldIffAcyclic(g, n);
    UnfoldSpeakable(g, {}, n);
    UnfoldKeyed(g, {}, n);
    var t := Unfold(g, {}, n).value;
    ReorderSpeakable(t, OrderOf(flags));
    PrintSound(Reorder(t, OrderOf(flags)), flags, 0);
    LoadInvertsDump(t, flags, lf);
  }

  /**
   * Dumping through any sink that never fails and loading what was written: a value out exactly when the graph
   * is acyclic (and a container, unless both sides allow any value), and then it is the value dumped.
   */
  method DumpThenLoad(n: Node, flags: Flags, lf: LoadFlags, sink: Sink, ghost nodes: set<Node>)
    returns (back: Option<Json>)
    requires n in nodes && Closed(Snapshot(nodes)) && Keyed(Snapshot(nodes)) && Spoken(Snapshot(nodes))
    requires Visited(nodes) == {} && sink.Reliable() && sink.out == []
    requires flags.encodeAny ==> lf.decodeAny
    requires var t := Unfold(Snapshot(nodes), {}, n); t.Some? ==> |Dump(t.value, flags)| <= Lexers.INPUT_MAX
    modifies nodes`visited, sink
    ensures Visited(nodes) == {}
    ensures var g := Snapshot(nodes);
      (back.Some? <==> (flags.encodeAny || n.payload.IsContainer()) && Acyclic(g, n))
      && (back.Some? ==> Unfold(g, {}, n).Some? && back.value == Meaning(Unfold(g, {}, n).value))
  {
    hide Unfold, Acyclic, ValidTexts, Dump, Load, Spoken, Meaning;
    ghost var g := Snapshot(nodes);
    SpokenValid(g, n);
    var rc := DumpCallback(n, flags, sink, nodes);
    assert Snapshot(nodes) == g;
    if rc != 0 {
      return None;
    }
    DumpedLoads(g, n, flags, lf);
    assert sink.out == Dump(Unfold(g, {}, n).value, flags);
    back := Parsers.Loads(sink.out, lf);
  }

  // ---- objects kept by the library ----

  /** The entries of an object node of the value graph are the pairs of the object, in the order of its ring. */
  ghost predicate Stores(es: seq<Entry>, ring: seq<HashTables.Node>) {
    |es| == |ring| && forall i :: 0 <= i < |es| ==> es[i].key == ring[i].key && es[i].serial == ring[i].serial
  }

  /**
   * What the dumper takes for granted of an object holds of one that is kept by these operations, and when it
   * preserves the order, it writes the keys in the order in which each was first inserted since it was last deleted.
   */
  lemma DumpedByBirth(obj: JsonObjects.JsonObject, es: seq<Entry>, flags: Flags)
    requires obj.Valid() && Stores(es, obj.table.ring)
    ensures DistinctEntries(es) && |es| == |obj.table.contents|
    ensures OrderOf(flags) == BySerial ==>
      var keys := KeyOrder(es, flags);
      |keys| == |es| && JsonObjects.ByBirth(keys, obj.table.contents, obj.history)
  {
    hide HashTables.HashTable.Valid, Arrange, JsonObjects.ByBirth, JsonObjects.Ordered;
    var ms := EntryTable(es);
    JsonObjects.CollectedKeys(obj, ms);
    EntriesDiffer(es);
    obj.table.SizeCounts();
    JsonObjects.SortedByBirth(obj, ms);
  }

  lemma EntriesDiffer(es: seq<Entry>)
    requires DistinctKeys(EntryTable(es)) && DistinctSerials(EntryTable(es))
    ensures DistinctEntries(es)
  {
    var ms := EntryTable(es);
    assert forall i :: 0 <= i < |es| ==> es[i].key == ms[i].key && es[i].serial == ms[i].serial;
  }
}
