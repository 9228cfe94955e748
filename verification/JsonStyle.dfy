/**
 * What the flags of json_dumps ask of the text, said of its syntax tree and of its bytes
 * (jansson-2.3/src/jansson.h:243-248, dump.c).
 */
module JsonStyle {
  import opened Bytes
  import opened JsonValue
  import opened Rfc4627

  // ---- JSON_INDENT and JSON_COMPACT: where there is white space ----

  /** A newline and n spaces for each of d open containers. */
  predicate IsLine(b: bytes, n: nat, d: nat) {
    |b| == 1 + n * d && b[0] == 10 && forall i :: 1 <= i < |b| ==> b[i] == 32
  }

  /** In front of the i-th entry of a container inside d others. */
  predicate Leading(b: bytes, i: int, n: nat, compact: bool, d: nat) {
    if n > 0 then IsLine(b, n, d + 1) else if i > 0 && !compact then b == [32] else b == []
  }

  /** Behind an entry. */
  predicate Trailing(b: bytes, last: bool, n: nat, d: nat) {
    if n > 0 && last then IsLine(b, n, d) else b == []
  }

  /** All white space of the tree, for an indentation by `n`, or none if n is zero. */
  predicate Laid(c: Syntax, n: nat, compact: bool, d: nat) {
    match c
    case List(blank, es) =>
      && blank == []
      && forall i :: 0 <= i < |es| ==>
        && Leading(es[i].before, i, n, compact, d) && Laid(es[i].value, n, compact, d + 1)
        && Trailing(es[i].after, i == |es| - 1, n, d)
    case Record(blank, ps) =>
      && blank == []
      && forall i :: 0 <= i < |ps| ==>
        && Leading(ps[i].before, i, n, compact, d) && Laid(ps[i].value, n, compact, d + 1)
        && Trailing(ps[i].after, i == |ps| - 1, n, d)
        && ps[i].beforeColon == [] && ps[i].afterColon == if compact then [] else [32]
    case _ => true
  }

  // ---- JSON_ENSURE_ASCII: what is escaped, and how ----

  predicate LowerCase(d: bytes) {
    forall i :: 0 <= i < |d| ==> 48 <= d[i] <= 57 || 97 <= d[i] <= 102
  }

  /**
   * Nothing is escaped that need not be: control characters, the quote and the backslash, the short way if there is
   * one, and with `ascii` what is not ASCII.
   */
  predicate StyledChar(c: Char, ascii: bool) {
    match c
    case Raw(b) => ascii ==> b < 0x80
    case Short(c) => c != 47
    case Hex(d) =>
      && HexDigits(d) && LowerCase(d)
      && var v := HexNumber(d);
         if v < 0x20 then v != 8 && v != 9 && v != 10 && v != 12 && v != 13 else ascii && v >= 0x80
    case Surrogates(high, low) => ascii && LowerCase(high) && LowerCase(low)
  }

  predicate StyledChars(cs: seq<Char>, ascii: bool) {
    forall i :: 0 <= i < |cs| ==> StyledChar(cs[i], ascii)
  }

  predicate Styled(c: Syntax, ascii: bool) {
    match c
    case Quoted(cs) => StyledChars(cs, ascii)
    case List(_, es) => forall i :: 0 <= i < |es| ==> Styled(es[i].value, ascii)
    case Record(_, ps) =>
      forall i :: 0 <= i < |ps| ==> StyledChars(ps[i].key, ascii) && Styled(ps[i].value, ascii)
    case _ => true
  }

  // ---- JSON_SORT_KEYS and JSON_PRESERVE_ORDER: the order of the members ----

  /** `a` ends where `b` goes on, or has the lower byte where they first differ. */
  ghost predicate Ascending(a: bytes, b: bytes) {
    exists i :: AscendingAt(a, b, i)
  }

  predicate AscendingAt(a: bytes, b: bytes, i: nat) {
    i <= |a| && i < |b| && a[..i] == b[..i] && (i == |a| || a[i] < b[i])
  }

  /** The members `ms` of an object in the order in which they are written. */
  ghost predicate Ordered(written: seq<Member>, ms: seq<Member>, sort: bool, preserve: bool) {
    && multiset(written) == multiset(ms)
    && if sort then forall i, j :: 0 <= i < j < |written| ==> Ascending(written[i].key, written[j].key)
       else if preserve then forall i, j :: 0 <= i < j < |written| ==> written[i].serial < written[j].serial
       else written == ms
  }

  /** The tree writes the value, its members in order. */
  ghost predicate Writes(c: Syntax, t: Tree, sort: bool, preserve: bool)
    decreases c
  {
    match t
    case Null => c == NullWord
    case True => c == TrueWord
    case False => c == FalseWord
    case Integer(i) => c.Numeral? && c.n.frac == None && c.n.exp == None && Whole(c.n) == i && (c.n.minus ==> i < 0)
    case Text(s) => c.Quoted? && CharsBytes(c.chars) == s
    case Array(items) =>
      && c.List? && |c.elements| == |items|
      && forall i :: 0 <= i < |items| ==> Writes(c.elements[i].value, items[i], sort, preserve)
    case Object(ms) =>
      && c.Record?
      && exists written: seq<Member> ::
        && Ordered(written, ms, sort, preserve) && |written| == |c.properties|
        && forall i :: 0 <= i < |written| ==>
          && CharsBytes(c.properties[i].key) == written[i].key
          && Writes(c.properties[i].value, written[i].value, sort, preserve)
  }

  // ---- the same of the bytes ----

  /** Where a byte stands: outside all string literals, inside one, or behind a backslash in one. */
  datatype Place = Outside | Inside | Escaped

  function Step(p: Place, b: byte): Place {
    match p
    case Outside => if b == 34 then Inside else Outside
    case Inside => if b == 34 then Outside else if b == 92 then Escaped else Inside
    case Escaped => Inside
  }

  function Reach(p: Place, s: bytes): Place {
    if s == [] then p else Step(Reach(p, s[..|s| - 1]), s[|s| - 1])
  }

  /** No space and no newline outside string literals. */
  predicate Dense(s: bytes) {
    forall i :: 0 <= i < |s| && Reach(Outside, s[..i]) == Outside ==> s[i] != 32 && s[i] != 10
  }

  /** Containers open behind `s`. */
  function Depth(s: bytes): int {
    if s == [] then 0
    else
      var before, b := s[..|s| - 1], s[|s| - 1];
      Depth(before) + if Reach(Outside, before) != Outside then 0 else if b == 91 || b == 123 then 1
                      else if b == 93 || b == 125 then -1 else 0
  }

  /** The spaces `s` starts with. */
  function Spaces(s: bytes): (n: nat)
    ensures n <= |s|
  {
    if s == [] || s[0] != 32 then 0 else 1 + Spaces(s[1..])
  }

  /**
   * Broken into lines: outside string literals a comma ends a line and so does the opening bracket of a container,
   * unless the container is empty; a closing bracket starts one, with the same exception; and a line inside d open
   * containers starts with exactly n * d spaces, a bracket that closes one not being inside it.
   */
  predicate InLines(s: bytes, n: nat) {
    forall i :: 0 <= i < |s| && Reach(Outside, s[..i]) == Outside ==> LineAt(s, n, i)
  }

  predicate LineAt(s: bytes, n: nat, i: nat)
    requires i < |s|
  {
    && (s[i] == 44 ==> i + 1 < |s| && s[i + 1] == 10)
    && (s[i] == 91 || s[i] == 123 ==> i + 1 < |s| && (s[i + 1] == 10 || s[i + 1] == s[i] + 2))
    && (s[i] == 93 || s[i] == 125 ==> i > 0 && (s[i - 1] == 10 || s[i - 1] == 32 || s[i - 1] == s[i] - 2))
    && (s[i] == 10 ==>
      var m := i + 1 + Spaces(s[i + 1..]);
      m < |s| && m - i - 1 == n * (if s[m] == 93 || s[m] == 125 then Depth(s[..i]) - 1 else Depth(s[..i])))
  }
}
