/** The text do_dump writes for a value tree (jansson-2.3/src/dump.c). */
module JsonPrint {
  import opened Bytes
  import opened JsonValue
  import opened JsonOrder
  import Utf8

  type width = n: nat | n < 32

  /** The flag word of json_dumps, decoded. */
  datatype Flags = Flags(
    indent: width, compact: bool, ensureAscii: bool, sortKeys: bool, preserveOrder: bool, encodeAny: bool)

  const QUOTE: byte := 34
  const BACKSLASH: byte := 92
  const COMMA: byte := 44
  const COLON: byte := 58
  const SPACE: byte := 32
  const NEWLINE: byte := 10
  const LBRACKET: byte := 91
  const RBRACKET: byte := 93
  const LBRACE: byte := 123
  const RBRACE: byte := 125
  const MINUS: byte := 45
  const POINT: byte := 46

  const NULL_TEXT: bytes := [110, 117, 108, 108]
  const TRUE_TEXT: bytes := [116, 114, 117, 101]
  const FALSE_TEXT: bytes := [102, 97, 108, 115, 101]

  function OrderOf(flags: Flags): Order {
    if flags.sortKeys then ByKey else if flags.preserveOrder then BySerial else AsStored
  }

  function Spaces(n: nat): bytes {
    if n == 0 then [] else Spaces(n - 1) + [SPACE]
  }

  function Margin(w: width, depth: nat): bytes {
    if depth == 0 then [] else Margin(w, depth - 1) + Spaces(w)
  }

  /** dump_indent. */
  function Gap(flags: Flags, depth: nat, space: bool): bytes {
    if flags.indent > 0 then [NEWLINE] + Margin(flags.indent, depth)
    else if space && !flags.compact then [SPACE]
    else []
  }

  function HexDigit(d: nat): byte
    requires d < 16
  {
    if d < 10 then 48 + d else 87 + d
  }

  /** "\\u%04x" of a 16-bit value. */
  function UnicodeEscape(v: nat): bytes
    requires v < 0x10000
  {
    [BACKSLASH, 117, HexDigit(v / 4096), HexDigit(v / 256 % 16), HexDigit(v / 16 % 16), HexDigit(v % 16)]
  }

  predicate NeedsEscape(cp: int, ascii: bool) {
    cp == 92 || cp == 34 || cp < 0x20 || (ascii && cp > 0x7F)
  }

  /** The escape sequence written for a code point. */
  function Escape(cp: int): bytes
    requires Utf8.IsScalar(cp)
  {
    if cp == 92 then [BACKSLASH, BACKSLASH]
    else if cp == 34 then [BACKSLASH, QUOTE]
    else if cp == 8 then [BACKSLASH, 98]
    else if cp == 12 then [BACKSLASH, 102]
    else if cp == 10 then [BACKSLASH, 110]
    else if cp == 13 then [BACKSLASH, 114]
    else if cp == 9 then [BACKSLASH, 116]
    else if cp < 0x10000 then UnicodeEscape(cp)
    else UnicodeEscape(0xD800 + (cp - 0x10000) / 1024) + UnicodeEscape(0xDC00 + (cp - 0x10000) % 1024)
  }

  datatype Emitted = Emitted(text: bytes, ok: bool)

  /**
   * What dump_string writes between the quotes, `pending` being the bytes it has passed over but not
   * written yet; on a malformed character it stops and the pending bytes are lost.
   */
  function Emit(s: bytes, pending: bytes, ascii: bool): Emitted
    decreases |s|
  {
    if s == [] then Emitted(pending, true)
    else match Utf8.DecodeOne(s)
      case None => Emitted([], false)
      case Some(c) =>
        Utf8.EncodeInvertsDecode(s);
        if NeedsEscape(c.cp, ascii) then
          var rest := Emit(s[c.size..], [], ascii);
          Emitted(pending + Escape(c.cp) + rest.text, rest.ok)
        else
          Emit(s[c.size..], pending + s[..c.size], ascii)
  }

  function PrintString(s: bytes, ascii: bool): Emitted {
    var body := Emit(s, [], ascii);
    Emitted([QUOTE] + body.text + (if body.ok then [QUOTE] else []), body.ok)
  }

  function PrintNat(n: nat): (r: bytes)
    ensures r != []
  {
    if n < 10 then [48 + n] else PrintNat(n / 10) + [48 + n % 10]
  }

  /** "%lld". */
  function PrintInt(i: int): bytes {
    if i < 0 then [MINUS] + PrintNat(-i) else PrintNat(i)
  }

  function Separator(flags: Flags): bytes {
    if flags.compact then [COLON] else [COLON, SPACE]
  }

  /** The text of a tree whose members already stand in the order they are written. */
  function Print(t: Tree, flags: Flags, depth: nat): bytes {
    match t
    case Null => NULL_TEXT
    case True => TRUE_TEXT
    case False => FALSE_TEXT
    case Integer(i) => PrintInt(i)
    case Text(s) => PrintString(s, flags.ensureAscii).text
    case Array(items) =>
      if items == [] then [LBRACKET, RBRACKET]
      else [LBRACKET] + Gap(flags, depth + 1, false) + PrintItems(items, flags, depth) + [RBRACKET]
    case Object(ms) =>
      if ms == [] then [LBRACE, RBRACE]
      else [LBRACE] + Gap(flags, depth + 1, false) + PrintMembers(ms, flags, depth) + [RBRACE]
  }

  function PrintItems(items: seq<Tree>, flags: Flags, depth: nat): bytes {
    if items == [] then []
    else
      Print(items[0], flags, depth + 1) + After(|items| == 1, flags, depth) + PrintItems(items[1..], flags, depth)
  }

  function PrintMembers(ms: seq<Member>, flags: Flags, depth: nat): bytes {
    if ms == [] then []
    else
      PrintString(ms[0].key, flags.ensureAscii).text + Separator(flags) + Print(ms[0].value, flags, depth + 1)
      + After(|ms| == 1, flags, depth) + PrintMembers(ms[1..], flags, depth)
  }

  /** What follows an element: a comma and the next gap, or the gap before the closing bracket. */
  function After(last: bool, flags: Flags, depth: nat): bytes {
    if last then Gap(flags, depth, false) else [COMMA] + Gap(flags, depth + 1, true)
  }

  /** The members of every object put in writing order. */
  function Reorder(t: Tree, order: Order): Tree {
    match t
    case Array(items) => Array(ReorderItems(items, order))
    case Object(ms) => Object(Arrange(order, ReorderMembers(ms, order)))
    case _ => t
  }

  function ReorderItems(items: seq<Tree>, order: Order): (r: seq<Tree>)
    ensures |r| == |items|
    ensures forall i :: 0 <= i < |r| ==> r[i] == Reorder(items[i], order)
  {
    if items == [] then [] else ReorderItems(items[..|items| - 1], order) + [Reorder(items[|items| - 1], order)]
  }

  function ReorderMembers(ms: seq<Member>, order: Order): (r: seq<Member>)
    ensures |r| == |ms|
    ensures forall i :: 0 <= i < |r| ==> r[i] == ms[i].(value := Reorder(ms[i].value, order))
  {
    if ms == [] then []
    else
      var last := ms[|ms| - 1];
      ReorderMembers(ms[..|ms| - 1], order) + [last.(value := Reorder(last.value, order))]
  }

  /** do_dump checks string values; a failure to write a key goes unnoticed. */
  predicate Printable(t: Tree) {
    match t
    case Text(s) => Utf8.Valid(s)
    case Array(items) => forall i :: 0 <= i < |items| ==> Printable(items[i])
    case Object(ms) => forall i :: 0 <= i < |ms| ==> Printable(ms[i].value)
    case _ => true
  }

  /** The text of a tree: every flag combination. */
  function Dump(t: Tree, flags: Flags): bytes {
    Print(Reorder(t, OrderOf(flags)), flags, 0)
  }

  /** Writing order does not change what a tree means, and keeps it printable and well keyed. */
  lemma {:induction false} ReorderKeepsMeaning(t: Tree, order: Order)
    requires WellKeyed(t)
    ensures Meaning(Reorder(t, order)) == Meaning(t)
    ensures WellKeyed(Reorder(t, order))
    ensures Printable(Reorder(t, order)) <==> Printable(t)
  {
    match t
    case Array(items) =>
      forall i | 0 <= i < |items|
        ensures Meaning(Reorder(items[i], order)) == Meaning(items[i])
        ensures WellKeyed(Reorder(items[i], order))
        ensures Printable(Reorder(items[i], order)) <==> Printable(items[i])
      {
        ReorderKeepsMeaning(items[i], order);
      }
      assert Meanings(ReorderItems(items, order)) == Meanings(items);
    case Object(ms) =>
      var rs := ReorderMembers(ms, order);
      forall i | 0 <= i < |ms|
        ensures Meaning(rs[i].value) == Meaning(ms[i].value)
        ensures WellKeyed(rs[i].value)
        ensures Printable(rs[i].value) <==> Printable(ms[i].value)
      {
        ReorderKeepsMeaning(ms[i].value, order);
      }
      ReorderedObject(ms, rs, order);
    case _ =>
  }

  lemma ReorderedObject(ms: seq<Member>, rs: seq<Member>, order: Order)
    requires DistinctKeys(ms) && DistinctSerials(ms) && |rs| == |ms|
    requires forall i :: 0 <= i < |ms| ==> rs[i].key == ms[i].key && rs[i].serial == ms[i].serial
    requires forall i :: 0 <= i < |ms| ==> Meaning(rs[i].value) == Meaning(ms[i].value) && WellKeyed(rs[i].value)
    requires forall i :: 0 <= i < |ms| ==> (Printable(rs[i].value) <==> Printable(ms[i].value))
    ensures MapOf(Arrange(order, rs)) == MapOf(ms)
    ensures WellKeyed(Object(Arrange(order, rs)))
    ensures Printable(Object(Arrange(order, rs))) <==> Printable(Object(ms))
  {
    hide Arrange, MapOf, Meaning;
    ArrangeKeepsMap(order, rs);
    SameMeaningSameMap(ms, rs);
    SameMembers(Arrange(order, rs), rs);
    SameValues(Arrange(order, rs), rs);
    SameValues(rs, Arrange(order, rs));
    assert Printable(Object(rs)) <==> Printable(Object(ms));
  }

  lemma SameValues(a: seq<Member>, rs: seq<Member>)
    requires forall m :: m in a ==> m in rs
    ensures (forall i :: 0 <= i < |rs| ==> WellKeyed(rs[i].value)) ==>
      forall i :: 0 <= i < |a| ==> WellKeyed(a[i].value)
    ensures Printable(Object(rs)) ==> Printable(Object(a))
  {
    forall i | 0 <= i < |a|
      ensures exists j :: 0 <= j < |rs| && rs[j] == a[i]
    {
      assert a[i] in rs;
    }
  }

  lemma {:induction false} SameMeaningSameMap(ms: seq<Member>, rs: seq<Member>)
    requires |rs| == |ms|
    requires forall i :: 0 <= i < |ms| ==> rs[i].key == ms[i].key && Meaning(rs[i].value) == Meaning(ms[i].value)
    ensures MapOf(rs) == MapOf(ms)
  {
    if ms != [] {
      SameMeaningSameMap(ms[..|ms| - 1], rs[..|rs| - 1]);
    }
  }
}
