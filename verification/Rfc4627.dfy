/**
 * JSON text as section 2 of RFC 4627 derives it: a syntax tree with its white space, the text it stands for and the
 * value it means. Where this library takes more than the grammar, or less, the comment says "lenience" or "limit".
 */
module Rfc4627 {
  import opened Bytes
  import opened JsonValue
  import Utf8

  datatype Char =
    | Raw(b: byte)                        // one byte of an unescaped character
    | Short(c: byte)                      // a backslash and c
    | Hex(d: bytes)                       // \u and four digits
    | Surrogates(high: bytes, low: bytes) // two such escapes

  datatype Exponent = Exponent(letter: byte, sign: bytes, digits: bytes)

  datatype Number = Number(minus: bool, whole: bytes, frac: Option<bytes>, exp: Option<Exponent>)

  datatype Syntax =
    | NullWord
    | TrueWord
    | FalseWord
    | Numeral(n: Number)
    | Quoted(chars: seq<Char>)
    | List(blank: bytes, elements: seq<Element>)       // `blank` is what an empty one holds
    | Record(blank: bytes, properties: seq<Property>)

  datatype Element = Element(before: bytes, value: Syntax, after: bytes)

  datatype Property = Property(
    before: bytes, key: seq<Char>, beforeColon: bytes, afterColon: bytes, value: Syntax, after: bytes)

  // ---- the text of a syntax tree ----

  function CharText(c: Char): bytes {
    match c
    case Raw(b) => [b]
    case Short(c) => [92, c]
    case Hex(d) => [92, 117] + d
    case Surrogates(high, low) => [92, 117] + high + [92, 117] + low
  }

  function CharsText(cs: seq<Char>): bytes {
    if cs == [] then [] else CharText(cs[0]) + CharsText(cs[1..])
  }

  function QuotedText(cs: seq<Char>): bytes {
    [34] + CharsText(cs) + [34]
  }

  function FracText(f: Option<bytes>): bytes {
    if f.Some? then [46] + f.value else []
  }

  function ExpText(e: Option<Exponent>): bytes {
    if e.Some? then [e.value.letter] + e.value.sign + e.value.digits else []
  }

  function NumberText(n: Number): bytes {
    (if n.minus then [45] else []) + n.whole + FracText(n.frac) + ExpText(n.exp)
  }

  function Text(t: Syntax): bytes {
    match t
    case NullWord => [110, 117, 108, 108]
    case TrueWord => [116, 114, 117, 101]
    case FalseWord => [102, 97, 108, 115, 101]
    case Numeral(n) => NumberText(n)
    case Quoted(cs) => QuotedText(cs)
    case List(blank, es) => [91] + (if es == [] then blank else ElementsText(es)) + [93]
    case Record(blank, ps) => [123] + (if ps == [] then blank else PropertiesText(ps)) + [125]
  }

  function ElementsText(es: seq<Element>): bytes {
    if es == [] then []
    else
      es[0].before + Text(es[0].value) + es[0].after + if |es| == 1 then [] else [44] + ElementsText(es[1..])
  }

  function PropertiesText(ps: seq<Property>): bytes {
    if ps == [] then []
    else
      var p := ps[0];
      p.before + QuotedText(p.key) + p.beforeColon + [58] + p.afterColon + Text(p.value) + p.after
      + if |ps| == 1 then [] else [44] + PropertiesText(ps[1..])
  }

  // ---- well-formed trees ----

  predicate Space(b: bytes) {
    forall i :: 0 <= i < |b| ==> b[i] == 9 || b[i] == 10 || b[i] == 13 || b[i] == 32
  }

  predicate Digits(d: bytes) {
    d != [] && forall i :: 0 <= i < |d| ==> 48 <= d[i] <= 57
  }

  /** Lenience: letters behind f are hexadecimal digits too, worth 16 and more. */
  predicate HexDigits(d: bytes) {
    |d| == 4 && forall i :: 0 <= i < 4 ==> 48 <= d[i] <= 57 || 65 <= d[i] <= 90 || 97 <= d[i] <= 122
  }

  function DigitOf(c: byte): int {
    if c <= 57 then c - 48 else if c <= 90 then c - 65 + 10 else c - 97 + 10
  }

  function HexNumber(d: bytes): (v: nat)
    requires HexDigits(d)
    ensures v <= 152915
  {
    4096 * DigitOf(d[0]) + 256 * DigitOf(d[1]) + 16 * DigitOf(d[2]) + DigitOf(d[3])
  }

  /** Limits: no \u0000, and surrogates in pairs only. */
  predicate FormedChar(c: Char) {
    match c
    case Raw(b) => b >= 0x20 && b != 34 && b != 92
    case Short(c) => c == 34 || c == 92 || c == 47 || c == 98 || c == 102 || c == 110 || c == 114 || c == 116
    case Hex(d) => HexDigits(d) && HexNumber(d) != 0 && !(0xD800 <= HexNumber(d) <= 0xDFFF)
    case Surrogates(high, low) =>
      && HexDigits(high) && 0xD800 <= HexNumber(high) <= 0xDBFF
      && HexDigits(low) && 0xDC00 <= HexNumber(low) <= 0xDFFF
  }

  predicate FormedChars(cs: seq<Char>) {
    forall i :: 0 <= i < |cs| ==> FormedChar(cs[i])
  }

  /** Limit: what is written as an integer has 64 bits. */
  predicate FormedNumber(n: Number) {
    && Digits(n.whole) && (n.whole[0] == 48 ==> |n.whole| == 1)
    && (n.frac.Some? ==> Digits(n.frac.value))
    && (n.exp.Some? ==> FormedExponent(n.exp.value))
    && (n.frac.None? && n.exp.None? ==> -0x8000_0000_0000_0000 <= Whole(n) <= 0x7FFF_FFFF_FFFF_FFFF)
  }

  predicate FormedExponent(e: Exponent) {
    (e.letter == 69 || e.letter == 101) && (e.sign == [] || e.sign == [43] || e.sign == [45]) && Digits(e.digits)
  }

  /** `unique` asks for pairwise distinct keys in every object. */
  predicate Formed(t: Syntax, unique: bool) {
    match t
    case Numeral(n) => FormedNumber(n)
    case Quoted(cs) => FormedChars(cs)
    case List(blank, es) =>
      Space(blank) && forall i :: 0 <= i < |es| ==> FormedElement(es[i]) && Formed(es[i].value, unique)
    case Record(blank, ps) =>
      && Space(blank)
      && (forall i :: 0 <= i < |ps| ==> FormedProperty(ps[i]) && Formed(ps[i].value, unique))
      && (unique ==> DifferentKeys(ps))
    case _ => true
  }

  predicate FormedElement(e: Element) {
    Space(e.before) && Space(e.after)
  }

  predicate FormedProperty(p: Property) {
    Space(p.before) && FormedChars(p.key) && Space(p.beforeColon) && Space(p.afterColon) && Space(p.after)
  }

  predicate DifferentKeys(ps: seq<Property>) {
    forall i, j :: 0 <= i < j < |ps| ==> CharsBytes(ps[i].key) != CharsBytes(ps[j].key)
  }

  // ---- the value of a syntax tree ----

  /** The UTF-8 bytes a character of a string stands for. */
  function CharBytes(c: Char): bytes {
    match c
    case Raw(b) => [b]
    case Short(c) =>
      [if c == 98 then 8 else if c == 102 then 12 else if c == 110 then 10 else if c == 114 then 13
       else if c == 116 then 9 else c]
    case Hex(d) => if HexDigits(d) then Utf8.Encode(HexNumber(d)) else []
    case Surrogates(high, low) =>
      if FormedChar(c) then
        Utf8.Encode(0x10000 + (HexNumber(high) - 0xD800) * 0x400 + (HexNumber(low) - 0xDC00))
      else []
  }

  function CharsBytes(cs: seq<Char>): bytes {
    if cs == [] then [] else CharBytes(cs[0]) + CharsBytes(cs[1..])
  }

  function Decimal(d: bytes): int {
    if d == [] then 0 else 10 * Decimal(d[..|d| - 1]) + ((d[|d| - 1] as int) - 48)
  }

  function Whole(n: Number): int {
    if n.minus then -Decimal(n.whole) else Decimal(n.whole)
  }

  function Value(t: Syntax): Json {
    match t
    case NullWord => JNull
    case TrueWord => JTrue
    case FalseWord => JFalse
    case Numeral(n) => if n.frac.None? && n.exp.None? then JInt(Whole(n)) else JReal(NumberText(n))
    case Quoted(cs) => JText(CharsBytes(cs))
    case List(_, es) => JArray(ValuesOf(es))
    case Record(_, ps) => JObject(MembersOf(ps))
  }

  function ValuesOf(es: seq<Element>): (r: seq<Json>)
    ensures |r| == |es| && forall i :: 0 <= i < |es| ==> r[i] == Value(es[i].value)
  {
    if es == [] then [] else ValuesOf(es[..|es| - 1]) + [Value(es[|es| - 1].value)]
  }

  /** Lenience: of two members with one key the later counts. */
  function MembersOf(ps: seq<Property>): map<bytes, Json> {
    if ps == [] then map[]
    else
      var last := ps[|ps| - 1];
      MembersOf(ps[..|ps| - 1])[CharsBytes(last.key) := Value(last.value)]
  }

  // ---- a whole text ----

  /** What stands behind a value does not belong to it: it neither extends a number nor a word. */
  predicate Ends(t: Syntax, tail: bytes) {
    tail != [] ==>
      match t
      case Numeral(n) =>
        && !(48 <= tail[0] <= 57)
        && (n.exp.None? ==> tail[0] != 69 && tail[0] != 101)
        && (n.exp.None? && n.frac.None? ==> tail[0] != 46)
      case NullWord => !IsLetter(tail[0])
      case TrueWord => !IsLetter(tail[0])
      case FalseWord => !IsLetter(tail[0])
      case _ => true
  }

  predicate IsLetter(b: byte) {
    65 <= b <= 90 || 97 <= b <= 122
  }

  /**
   * The text derives the value: one value with white space around it, in UTF-8. Only an array or an object unless
   * `any` value may stand there; with `more`, anything may follow the value.
   */
  ghost predicate Derives(text: bytes, v: Json, unique: bool, any: bool, more: bool) {
    exists lead, t, tail :: DerivesAs(text, v, unique, any, more, lead, t, tail)
  }

  predicate DerivesAs(
      text: bytes, v: Json, unique: bool, any: bool, more: bool, lead: bytes, t: Syntax, tail: bytes)
  {
    && text == lead + Text(t) + tail
    && Space(lead) && Formed(t, unique) && Value(t) == v
    && (any || t.List? || t.Record?)
    && Utf8.Valid(lead + Text(t))
    && if more then Ends(t, tail) else Space(tail)
  }
}
