/**
 * What the streaming lexer and the recursive-descent parser of jansson-2.3/src/load.c compute, as functions
 * of the text not yet read. The classes in Lexer.dfy and Parser.dfy are proved to compute these.
 */
module JsonGrammar {
  import opened Bytes
  import opened JsonValue
  import opened JsonPrint
  import Utf8

  datatype Token =
    | EndOfFile
    | Invalid
    | Aborted                // assert(0) in decode_unicode_escape
    | Punct(c: byte)
    | Str(s: bytes)
    | Int(i: int)
    | Real(literal: bytes)
    | KwTrue
    | KwFalse
    | KwNull
  {
    predicate Stops() {
      EndOfFile? || Invalid? || Aborted?
    }
  }

  datatype Scan = Scan(token: Token, rest: bytes)


  predicate IsUpper(c: int) { 65 <= c <= 90 }

  predicate IsLower(c: int) { 97 <= c <= 122 }

  predicate IsAlpha(c: int) { IsUpper(c) || IsLower(c) }

  predicate IsSpace(c: int) { c == 32 || c == 9 || c == 10 || c == 13 }

  predicate IsPunct(c: int) { c == LBRACE || c == RBRACE || c == LBRACKET || c == RBRACKET || c == COLON || c == COMMA }

  predicate IsShortcut(c: int) {
    c == 34 || c == 92 || c == 47 || c == 98 || c == 102 || c == 110 || c == 114 || c == 116
  }

  function DigitRun(s: bytes): (n: nat)
    ensures n <= |s|
    ensures forall i :: 0 <= i < n ==> IsDigit(s[i])
    ensures n < |s| ==> !IsDigit(s[n])
  {
    if s == [] || !IsDigit(s[0]) then 0 else 1 + DigitRun(s[1..])
  }

  function AlphaRun(s: bytes): (n: nat)
    ensures n <= |s|
    ensures forall i :: 0 <= i < n ==> IsAlpha(s[i])
    ensures n < |s| ==> !IsAlpha(s[n])
  {
    if s == [] || !IsAlpha(s[0]) then 0 else 1 + AlphaRun(s[1..])
  }

  /** The digit decode_unicode_escape reads from a character: any letter is taken. */
  function HexDigitValue(c: byte): Option<nat> {
    if IsDigit(c) then Some(c - 48)
    else if IsLower(c) then Some(c - 97 + 10)
    else if IsUpper(c) then Some(c - 65 + 10)
    else None
  }

  function HexValue(s: bytes): Option<nat> {
    if |s| < 4 then None
    else
      var a, b, c, d := HexDigitValue(s[0]), HexDigitValue(s[1]), HexDigitValue(s[2]), HexDigitValue(s[3]);
      if a == None || b == None || c == None || d == None then None
      else Some(((a.value * 16 + b.value) * 16 + c.value) * 16 + d.value)
  }

  /** Index just behind the closing quote of a string whose opening quote has been read. */
  function StringEnd(s: bytes): (r: Option<nat>)
    ensures r.Some? ==> 1 <= r.value <= |s|
  {
    if s == [] then None
    else if s[0] == QUOTE then Some(1)
    else if s[0] <= 0x1F then None
    else if s[0] != BACKSLASH then Behind(StringEnd(s[1..]), 1)
    else if |s| >= 2 && s[1] == 117 then
      if |s| < 6 then None else Behind(StringEnd(s[6..]), 6)
    else if |s| >= 2 && IsShortcut(s[1]) then Behind(StringEnd(s[2..]), 2)
    else None
  }

  function Behind(r: Option<nat>, n: nat): Option<nat> {
    match r
    case None => None
    case Some(k) => Some(k + n)
  }

  function Shortcut(c: byte): byte {
    if c == 98 then 8
    else if c == 102 then 12
    else if c == 110 then 10
    else if c == 114 then 13
    else if c == 116 then 9
    else c
  }

  datatype Decoded = Decoded(s: bytes) | Bad | Abort {
    function Prepend(p: bytes): Decoded {
      if Decoded? then Decoded(p + s) else this
    }
  }

  predicate IsHighSurrogate(v: int) { 0xD800 <= v <= 0xDBFF }

  predicate IsLowSurrogate(v: int) { 0xDC00 <= v <= 0xDFFF }

  function Combine(high: int, low: int): int {
    (high - 0xD800) * 1024 + (low - 0xDC00) + 0x10000
  }

  lemma HexValueRange(s: bytes)
    requires HexValue(s).Some?
    ensures HexValue(s).value <= 152915
  {
  }

  datatype UnicodeEscaped = Point(cp: nat, size: nat) | BadSurrogate | NoHex

  /** The code point of one "\\uXXXX" escape, or of two that form a surrogate pair. */
  function UnicodeAt(p: bytes): (r: UnicodeEscaped)
    requires |p| >= 2
    ensures r.Point? ==> 0 < r.cp && Utf8.IsScalar(r.cp) && (r.size == 6 || r.size == 12) && r.size <= |p|
    ensures r.Point? && r.size == 12 ==> p[6] == BACKSLASH && p[7] == 117
  {
    match HexValue(p[2..])
    case None => NoHex
    case Some(v) =>
      HexValueRange(p[2..]);
      if IsHighSurrogate(v) then
        if |p| >= 8 && p[6] == BACKSLASH && p[7] == 117 then
          match HexValue(p[8..])
          case None => NoHex
          case Some(v2) => if IsLowSurrogate(v2) then Point(Combine(v, v2), 12) else BadSurrogate
        else BadSurrogate
      else if IsLowSurrogate(v) || v == 0 then BadSurrogate
      else Point(v, 6)
  }

  /** The value of the source text of a string, up to its closing quote. */
  function Unescape(p: bytes): Decoded {
    if p == [] then Bad
    else if p[0] == QUOTE then Decoded([])
    else if p[0] != BACKSLASH then Unescape(p[1..]).Prepend([p[0]])
    else if |p| < 2 then Bad
    else if p[1] != 117 then Unescape(p[2..]).Prepend([Shortcut(p[1])])
    else match UnicodeAt(p)
      case NoHex => Abort
      case BadSurrogate => Bad
      case Point(cp, size) => Unescape(p[size..]).Prepend(Utf8.Encode(cp))
  }

  function LexString(s: bytes): Scan {
    match StringEnd(s)
    case None => Scan(Invalid, [])
    case Some(n) =>
      match Unescape(s[..n])
      case Decoded(v) => Scan(Str(v), s[n..])
      case Bad => Scan(Invalid, [])
      case Abort => Scan(Aborted, [])
  }

  function NatValue(d: bytes): int {
    if d == [] then 0 else NatValue(d[..|d| - 1]) * 10 + ((d[|d| - 1] as int) - 48)
  }

  /** strtoll of "-?digits". */
  function IntValue(d: bytes): int {
    if d != [] && d[0] == MINUS then -NatValue(d[1..]) else NatValue(d)
  }

  /** End of the integer part: "-?(0|[1-9][0-9]*)", None when there is none. */
  function IntegerEnd(s: bytes): (r: Option<nat>)
    ensures r.Some? ==> 1 <= r.value <= |s|
  {
    var a := if s != [] && s[0] == MINUS then 1 else 0;
    if |s| == a then None
    else if s[a] == 48 then
      if a + 1 < |s| && IsDigit(s[a + 1]) then None else Some(a + 1)
    else if IsDigit(s[a]) then Some(a + DigitRun(s[a..]))
    else None
  }

  /** End of the fraction and exponent that start at the head of `s`, None when malformed. */
  function RealEnd(s: bytes): (r: Option<nat>)
    ensures r.Some? ==> r.value <= |s|
  {
    if s != [] && s[0] == POINT then
      var d := DigitRun(s[1..]);
      if d == 0 then None else Behind(ExponentEnd(s[1 + d..]), 1 + d)
    else ExponentEnd(s)
  }

  function ExponentEnd(s: bytes): (r: Option<nat>)
    ensures r.Some? ==> r.value <= |s|
  {
    if s == [] || !(s[0] == 69 || s[0] == 101) then Some(0)
    else
      var a := if |s| > 1 && (s[1] == 43 || s[1] == 45) then 2 else 1;
      var d := DigitRun(s[a..]);
      if d == 0 then None else Some(a + d)
  }

  predicate StartsReal(s: bytes) {
    s != [] && (s[0] == POINT || s[0] == 69 || s[0] == 101)
  }

  function LexNumber(s: bytes): Scan {
    match IntegerEnd(s)
    case None => Scan(Invalid, [])
    case Some(b) =>
      if !StartsReal(s[b..]) then
        if INT_MIN <= IntValue(s[..b]) <= INT_MAX then Scan(Int(IntValue(s[..b])), s[b..]) else Scan(Invalid, [])
      else match RealEnd(s[b..])
        case None => Scan(Invalid, [])
        case Some(n) => Scan(Real(s[..b + n]), s[b + n..])
  }

  function WordToken(w: bytes): Token {
    if w == TRUE_TEXT then KwTrue
    else if w == FALSE_TEXT then KwFalse
    else if w == NULL_TEXT then KwNull
    else Invalid
  }

  function LexWord(s: bytes): Scan {
    var n := AlphaRun(s);
    Scan(WordToken(s[..n]), s[n..])
  }

  /** lex_scan; `broken` says that the stream ends in an undecodable byte and not at the end of input. */
  function Lex(s: bytes, broken: bool): (r: Scan)
    ensures |r.rest| <= |s|
    ensures !r.token.Stops() ==> |r.rest| < |s|
  {
    if s == [] then Scan(if broken then Invalid else EndOfFile, [])
    else if IsSpace(s[0]) then Lex(s[1..], broken)
    else if IsPunct(s[0]) then Scan(Punct(s[0]), s[1..])
    else if s[0] == QUOTE then LexString(s[1..])
    else if IsDigit(s[0]) || s[0] == MINUS then LexNumber(s)
    else if IsAlpha(s[0]) then LexWord(s)
    else Scan(Invalid, [])
  }

  /** The flag word of json_loads, decoded. */
  datatype LoadFlags = LoadFlags(rejectDuplicates: bool, disableEofCheck: bool, decodeAny: bool)

  datatype Parsed = Parsed(value: Json, rest: bytes) | Failed

  /** parse_value: `tok` has just been scanned and `s` is the text behind it. */
  function ParseValue(tok: Token, s: bytes, broken: bool, flags: LoadFlags): (r: Parsed)
    ensures r.Parsed? ==> |r.rest| <= |s|
    decreases |s|, 1
  {
    match tok
    case Str(v) => Parsed(JText(v), s)
    case Int(i) => Parsed(JInt(i), s)
    case Real(l) => Parsed(JReal(l), s)
    case KwTrue => Parsed(JTrue, s)
    case KwFalse => Parsed(JFalse, s)
    case KwNull => Parsed(JNull, s)
    case Punct(c) =>
      if c == LBRACE then
        var t := Lex(s, broken);
        if t.token == Punct(RBRACE) then Parsed(JObject(map[]), t.rest)
        else if t.token.Stops() then Failed
        else ParseMembers(t.token, t.rest, broken, flags, map[])
      else if c == LBRACKET then
        var t := Lex(s, broken);
        if t.token == Punct(RBRACKET) then Parsed(JArray([]), t.rest)
        else if t.token.Stops() then Failed
        else ParseItems(t.token, t.rest, broken, flags, [])
      else Failed
    case _ => Failed
  }

  /** The loop of parse_array, with the elements read so far. */
  function ParseItems(tok: Token, s: bytes, broken: bool, flags: LoadFlags, acc: seq<Json>): (r: Parsed)
    ensures r.Parsed? ==> |r.rest| <= |s|
    decreases |s|, 2
  {
    match ParseValue(tok, s, broken, flags)
    case Failed => Failed
    case Parsed(v, s1) =>
      var t := Lex(s1, broken);
      if t.token == Punct(COMMA) then
        var u := Lex(t.rest, broken);
        ParseItems(u.token, u.rest, broken, flags, acc + [v])
      else if t.token == Punct(RBRACKET) then Parsed(JArray(acc + [v]), t.rest)
      else Failed
  }

  /** The loop of parse_object, with the members read so far. */
  function ParseMembers(tok: Token, s: bytes, broken: bool, flags: LoadFlags, acc: map<bytes, Json>): (r: Parsed)
    ensures r.Parsed? ==> |r.rest| <= |s|
    decreases |s|, 2
  {
    if !tok.Str? || (flags.rejectDuplicates && tok.s in acc) then Failed
    else
      var colon := Lex(s, broken);
      if colon.token != Punct(COLON) then Failed
      else
        var first := Lex(colon.rest, broken);
        match ParseValue(first.token, first.rest, broken, flags)
        case Failed => Failed
        case Parsed(v, s1) =>
          var t := Lex(s1, broken);
          if t.token == Punct(COMMA) then
            var u := Lex(t.rest, broken);
            ParseMembers(u.token, u.rest, broken, flags, acc[tok.s := v])
          else if t.token == Punct(RBRACE) then Parsed(JObject(acc[tok.s := v]), t.rest)
          else Failed
  }

  /** parse_json on a whole C string. */
  function Load(text: bytes, flags: LoadFlags): Option<Json> {
    var s := Utf8.ValidPrefix(text);
    var broken := s != text;
    var t := Lex(s, broken);
    if !flags.decodeAny && t.token != Punct(LBRACKET) && t.token != Punct(LBRACE) then None
    else match ParseValue(t.token, t.rest, broken, flags)
      case Failed => None
      case Parsed(v, rest) =>
        if !flags.disableEofCheck && Lex(rest, broken).token != EndOfFile then None else Some(v)
  }
}
