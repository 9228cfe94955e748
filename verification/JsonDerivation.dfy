/**
 * The loader accepts exactly the texts that section 2 of RFC 4627 derives (module Rfc4627), and gives the value they
 * derive.
 */
module JsonDerivation {
  import opened Bytes
  import opened JsonValue
  import opened JsonPrint
  import opened JsonGrammar
  import opened StringCodec
  import opened JsonRoundTrip
  import R = Rfc4627
  import Utf8

  // ---- what is derived is read: strings ----

  lemma DigitOfLetter(c: byte)
    requires 48 <= c <= 57 || 65 <= c <= 90 || 97 <= c <= 122
    ensures HexDigitValue(c) == Some(R.DigitOf(c))
  {
  }

  lemma HexRead(d: bytes, x: bytes)
    requires R.HexDigits(d)
    ensures HexValue(d + x) == Some(R.HexNumber(d))
  {
    hide HexDigitValue, R.DigitOf;
    var s := d + x;
    assert s[0] == d[0] && s[1] == d[1] && s[2] == d[2] && s[3] == d[3];
    DigitOfLetter(d[0]);
    DigitOfLetter(d[1]);
    DigitOfLetter(d[2]);
    DigitOfLetter(d[3]);
  }

  /** Four hexadecimal digits, each in either case, are read as the number they spell in base 16. */
  lemma HexSpelling(a: int, b: int, c: int, d: int, s: bytes)
    requires |s| >= 4 && Spells(s[0], a) && Spells(s[1], b) && Spells(s[2], c) && Spells(s[3], d)
    ensures HexValue(s) == Some(0x1000 * a + 0x100 * b + 0x10 * c + d)
  {
    hide Spells, HexDigitValue;
    SpelledDigit(s[0], a);
    SpelledDigit(s[1], b);
    SpelledDigit(s[2], c);
    SpelledDigit(s[3], d);
  }

  /** The character c is the hexadecimal digit n: "0123456789abcdef" or "0123456789ABCDEF". */
  predicate Spells(c: byte, n: int) {
    0 <= n < 16 &&
    (c == [48, 49, 50, 51, 52, 53, 54, 55, 56, 57, 97, 98, 99, 100, 101, 102][n]
     || c == [48, 49, 50, 51, 52, 53, 54, 55, 56, 57, 65, 66, 67, 68, 69, 70][n])
  }

  lemma SpelledDigit(c: byte, n: int)
    requires Spells(c, n)
    ensures 0 <= n < 16 && HexDigitValue(c) == Some(n)
  {
  }

  lemma HexDenotes(d: bytes, x: bytes)
    requires R.FormedChar(R.Hex(d))
    ensures Denotes([BACKSLASH, 117] + d, Utf8.Encode(R.HexNumber(d)), x)
  {
    hide R.HexNumber, HexValue, R.HexDigits;
    FourDigits(d);
    var p := [BACKSLASH, 117] + d + x;
    assert p[2..] == d + x && p[6..] == x;
    HexRead(d, x);
    var v := R.HexNumber(d);
    assert UnicodeAt(p) == Point(v, 6);
    SixBehind(p, x);
  }

  lemma FourDigits(d: bytes)
    requires R.HexDigits(d)
    ensures |d| == 4
  {
  }

  lemma PairRead(high: bytes, low: bytes, x: bytes)
    requires R.FormedChar(R.Surrogates(high, low))
    ensures Denotes(R.CharText(R.Surrogates(high, low)), R.CharBytes(R.Surrogates(high, low)), x)
  {
    hide R.HexNumber, HexValue, R.HexDigits, StringEnd, Unescape, Utf8.Encode;
    FourDigits(high);
    FourDigits(low);
    var a, b := [BACKSLASH, 117] + high, [BACKSLASH, 117] + low;
    assert R.CharText(R.Surrogates(high, low)) == a + b;
    TwoSixes(a, b, x);
    var p := a + b + x;
    assert p[2..] == high + (b + x) && p[8..] == low + x;
    HexRead(high, b + x);
    HexRead(low, x);
    SixBehind(p, b + x);
    SixBehind(b + x, x);
    BehindTwice(x);
    PairAt(p, R.HexNumber(high), R.HexNumber(low));
  }

  lemma CharRead(c: R.Char, x: bytes)
    requires R.FormedChar(c)
    ensures Denotes(R.CharText(c), R.CharBytes(c), x)
  {
    match c
    case Raw(b) => PlainDenotesItself([b], x);
    case Short(b) =>
      var p := [BACKSLASH, b] + x;
      assert p[2..] == x;
    case Hex(d) => HexDenotes(d, x);
    case Surrogates(high, low) => PairRead(high, low, x);
  }

  lemma {:induction false} CharsRead(cs: seq<R.Char>, x: bytes)
    requires R.FormedChars(cs)
    ensures Denotes(R.CharsText(cs), R.CharsBytes(cs), x)
  {
    hide Denotes, R.CharText, R.CharBytes, R.FormedChar;
    if cs == [] {
      PlainDenotesItself([], x);
    } else {
      CharsRead(cs[1..], x);
      CharRead(cs[0], R.CharsText(cs[1..]) + x);
      DenotesConcat(R.CharText(cs[0]), R.CharBytes(cs[0]), R.CharsText(cs[1..]), R.CharsBytes(cs[1..]), x);
    }
  }

  lemma QuotedRead(cs: seq<R.Char>, k: bytes, broken: bool)
    requires R.FormedChars(cs)
    ensures Lex(R.QuotedText(cs) + k, broken) == Scan(Str(R.CharsBytes(cs)), k)
  {
    hide R.CharsText, R.CharsBytes, StringEnd, Unescape;
    var e, v := R.CharsText(cs), R.CharsBytes(cs);
    var s := R.QuotedText(cs) + k;
    var p := s[1..];
    assert s[0] == QUOTE && p == e + ([QUOTE] + k);
    var n := |e| + 1;
    assert p[..n] == e + [QUOTE] && p[n..] == k;
    CharsRead(cs, [QUOTE] + k);
    CharsRead(cs, [QUOTE]);
    ClosingQuote(k);
    assert v + [] == v;
  }

  lemma ClosingQuote(k: bytes)
    ensures StringEnd([QUOTE] + k) == Some(1) && Unescape([QUOTE]) == Decoded([])
  {
  }

  // ---- what is derived is read: numbers and words ----

  lemma {:induction false} DecimalRead(d: bytes)
    ensures NatValue(d) == R.Decimal(d)
  {
    if d != [] {
      DecimalRead(d[..|d| - 1]);
    }
  }

  lemma WholeRead(n: R.Number, s: bytes)
    requires R.Digits(n.whole) && s == (if n.minus then [MINUS] else []) + n.whole
    ensures IntValue(s) == R.Whole(n)
  {
    DecimalRead(n.whole);
    if n.minus {
      assert s[1..] == n.whole;
    } else {
      assert s == n.whole;
    }
  }

  /** The integer part, in front of what is no digit. */
  lemma WholeEnd(n: R.Number, k: bytes)
    requires R.Digits(n.whole) && (n.whole[0] == 48 ==> |n.whole| == 1) && (k != [] ==> !IsDigit(k[0]))
    ensures IntegerEnd((if n.minus then [MINUS] else []) + n.whole + k) == Some((if n.minus then 1 else 0) + |n.whole|)
  {
    DigitRunOf(n.whole, k);
    hide DigitRun;
    var sign := if n.minus then [MINUS] else [];
    var s := sign + n.whole + k;
    var a := |sign|;
    Assoc(sign, n.whole, k);
    assert s[a..] == n.whole + k && s[a] == n.whole[0];
    assert s[0] == if n.minus then MINUS else n.whole[0];
    assert a + 1 < |s| && |n.whole| == 1 ==> s[a + 1] == k[0];
  }

  lemma ExponentSigned(letter: byte, sign: bytes, digits: bytes, k: bytes)
    requires (letter == 69 || letter == 101) && (sign == [] || sign == [43] || sign == [45]) && R.Digits(digits)
    requires k != [] ==> !IsDigit(k[0])
    ensures ExponentEnd([letter] + sign + digits + k) == Some(1 + |sign| + |digits|)
  {
    DigitRunOf(digits, k);
    hide DigitRun;
    var s := [letter] + sign + digits + k;
    Assoc([letter] + sign, digits, k);
    var head := [letter] + sign;
    assert s == head + (digits + k) && |head| == 1 + |sign|;
    assert s[|head|..] == digits + k;
    assert s[0] == letter && s[1] == if sign == [] then digits[0] else sign[0];
  }

  lemma ExponentRead(e: Option<R.Exponent>, k: bytes)
    requires e.Some? ==> R.FormedExponent(e.value)
    requires k != [] ==> !IsDigit(k[0]) && (e.None? ==> k[0] != 69 && k[0] != 101)
    ensures ExponentEnd(R.ExpText(e) + k) == Some(|R.ExpText(e)|)
  {
    if e.None? {
      assert R.ExpText(e) + k == k;
    } else {
      hide ExponentEnd;
      ExponentSigned(e.value.letter, e.value.sign, e.value.digits, k);
    }
  }

  lemma FracRead(f: bytes, tail: bytes)
    requires R.Digits(f) && (tail != [] ==> !IsDigit(tail[0]))
    ensures RealEnd([POINT] + f + tail) == Behind(ExponentEnd(tail), 1 + |f|)
  {
    DigitRunOf(f, tail);
    hide DigitRun, ExponentEnd;
    var s := [POINT] + f + tail;
    assert s[1..] == f + tail && s[1 + |f|..] == tail;
  }

  lemma NoFrac(s: bytes)
    ensures s == [] || s[0] != POINT ==> RealEnd(s) == ExponentEnd(s)
  {
  }

  lemma RealRead(n: R.Number, k: bytes)
    requires R.FormedNumber(n) && R.Ends(R.Numeral(n), k)
    ensures RealEnd(R.FracText(n.frac) + R.ExpText(n.exp) + k) == Some(|R.FracText(n.frac) + R.ExpText(n.exp)|)
    ensures StartsReal(R.FracText(n.frac) + R.ExpText(n.exp) + k) <==> n.frac.Some? || n.exp.Some?
  {
    hide ExponentEnd, R.Digits, R.Whole, RealEnd;
    var exp := R.ExpText(n.exp);
    ExponentRead(n.exp, k);
    NoFrac(exp + k);
    if n.frac.Some? {
      FracRead(n.frac.value, exp + k);
      assert [POINT] + n.frac.value + exp + k == [POINT] + n.frac.value + (exp + k);
    } else {
      assert R.FracText(n.frac) + exp + k == exp + k;
    }
  }

  lemma NumberParts(n: R.Number, k: bytes)
    ensures var sign, point := if n.minus then [MINUS] else [], R.FracText(n.frac) + R.ExpText(n.exp);
      && R.NumberText(n) + k == sign + n.whole + (point + k)
      && R.NumberText(n) == sign + n.whole + point
  {
  }

  lemma NumeralRead(n: R.Number, k: bytes, broken: bool)
    requires R.FormedNumber(n) && R.Ends(R.Numeral(n), k)
    ensures Lex(R.NumberText(n) + k, broken) ==
      Scan(if n.frac.None? && n.exp.None? then Int(R.Whole(n)) else Real(R.NumberText(n)), k)
  {
    hide IntegerEnd, RealEnd, IntValue, R.Whole, R.FracText, R.ExpText, StartsReal;
    var sign, point := if n.minus then [MINUS] else [], R.FracText(n.frac) + R.ExpText(n.exp);
    var s := R.NumberText(n) + k;
    NumberParts(n, k);
    RealRead(n, k);
    RealHead(n, k);
    WholeEnd(n, point + k);
    var b := |sign + n.whole|;
    assert s[..b] == sign + n.whole && s[b..] == point + k;
    WholeRead(n, s[..b]);
    assert s[..b + |point|] == R.NumberText(n) && s[b + |point|..] == k;
    assert s[0] == if n.minus then MINUS else n.whole[0];
    if n.frac.None? && n.exp.None? {
      NoReal(n);
      assert s[b..] == k;
    }
  }

  lemma NoReal(n: R.Number)
    requires n.frac.None? && n.exp.None?
    ensures R.FracText(n.frac) + R.ExpText(n.exp) == []
    ensures R.NumberText(n) == (if n.minus then [MINUS] else []) + n.whole
  {
  }

  lemma RealHead(n: R.Number, k: bytes)
    requires R.FormedNumber(n) && R.Ends(R.Numeral(n), k)
    ensures var s := R.FracText(n.frac) + R.ExpText(n.exp) + k; s != [] ==> !IsDigit(s[0])
  {
  }

  lemma WordRead(w: bytes, k: bytes, broken: bool)
    requires w == NULL_TEXT || w == TRUE_TEXT || w == FALSE_TEXT
    requires k != [] ==> !IsAlpha(k[0])
    ensures Lex(w + k, broken) == Scan(WordToken(w), k)
  {
    AlphaRunOf(w, k);
    assert (w + k)[..|w|] == w && (w + k)[|w|..] == k;
  }

  // ---- what is derived is read: values ----

  lemma SpaceBlank(g: bytes)
    ensures R.Space(g) <==> Blank(g)
  {
  }

  lemma SkipSpace(g: bytes, s: bytes, broken: bool)
    requires R.Space(g)
    ensures Lex(g + s, broken) == Lex(s, broken)
  {
    SpaceBlank(g);
    LexSkipsBlank(g, s, broken);
  }

  /** What can stand behind a value inside a container. */
  lemma SpaceEnds(t: R.Syntax, after: bytes, tail: bytes)
    requires R.Space(after) && (tail != [] ==> tail[0] == COMMA || tail[0] == RBRACKET || tail[0] == RBRACE)
    ensures R.Ends(t, after + tail)
  {
  }

  lemma {:induction false} ValueRead(t: R.Syntax, k: bytes, broken: bool, lf: LoadFlags)
    requires R.Formed(t, lf.rejectDuplicates) && R.Ends(t, k)
    ensures Reads(R.Text(t), k, R.Value(t), broken, lf)
    decreases t, 0
  {
    match t
    case List(_, _) => ListRead(t, k, broken, lf);
    case Record(_, _) => RecordRead(t, k, broken, lf);
    case _ => LeafRead(t, k, broken, lf);
  }

  lemma LeafRead(t: R.Syntax, k: bytes, broken: bool, lf: LoadFlags)
    requires R.Formed(t, lf.rejectDuplicates) && R.Ends(t, k) && !t.List? && !t.Record?
    ensures Reads(R.Text(t), k, R.Value(t), broken, lf)
  {
    hide Lex, R.NumberText, R.QuotedText, R.CharsBytes, R.FormedNumber, R.FormedChars, R.Whole;
    match t
    case NullWord => WordRead(NULL_TEXT, k, broken);
    case TrueWord => WordRead(TRUE_TEXT, k, broken);
    case FalseWord => WordRead(FALSE_TEXT, k, broken);
    case Numeral(n) => NumeralRead(n, k, broken);
    case Quoted(cs) => QuotedRead(cs, k, broken);
  }

  lemma {:induction false} ListRead(t: R.Syntax, k: bytes, broken: bool, lf: LoadFlags)
    requires t.List? && R.Formed(t, lf.rejectDuplicates)
    ensures Reads(R.Text(t), k, R.Value(t), broken, lf)
    decreases t, 0, 1
  {
    hide Lex, ParseItems, ParseValue, R.ElementsText, R.ValuesOf;
    var es := t.elements;
    var inner := (if es == [] then t.blank else R.ElementsText(es)) + ([RBRACKET] + k);
    Bracketed(LBRACKET, if es == [] then t.blank else R.ElementsText(es), RBRACKET, k, broken);
    if es == [] {
      SkipSpace(t.blank, [RBRACKET] + k, broken);
      LexPunct(RBRACKET, k, broken);
      EmptyList(inner, broken, lf);
      NoValues();
    } else {
      ElementsRead(es, k, [], broken, lf);
      ArrayStep(inner, broken, lf);
      assert [] + R.ValuesOf(es) == R.ValuesOf(es);
    }
  }

  lemma NoValues()
    ensures R.ValuesOf([]) == [] && R.MembersOf([]) == map[]
  {
  }

  lemma EmptyList(s: bytes, broken: bool, lf: LoadFlags)
    ensures Lex(s, broken).token == Punct(RBRACKET) ==>
      ParseValue(Punct(LBRACKET), s, broken, lf) == Parsed(JArray([]), Lex(s, broken).rest)
    ensures Lex(s, broken).token == Punct(RBRACE) ==>
      ParseValue(Punct(LBRACE), s, broken, lf) == Parsed(JObject(map[]), Lex(s, broken).rest)
  {
  }

  lemma Bracketed(open: byte, body: bytes, close: byte, k: bytes, broken: bool)
    requires IsPunct(open)
    ensures Lex([open] + body + [close] + k, broken) == Scan(Punct(open), body + ([close] + k))
  {
    assert [open] + body + [close] + k == [open] + (body + ([close] + k));
    LexPunct(open, body + ([close] + k), broken);
  }

  /** The text behind the value of an element. */
  function Later(es: seq<R.Element>, k: bytes): bytes {
    if |es| <= 1 then [RBRACKET] + k else [COMMA] + (R.ElementsText(es[1..]) + ([RBRACKET] + k))
  }

  lemma {:induction false} ElementsSplit(es: seq<R.Element>, k: bytes)
    requires es != []
    ensures R.ElementsText(es) + ([RBRACKET] + k) ==
      es[0].before + (R.Text(es[0].value) + (es[0].after + Later(es, k)))
  {
    var e := es[0];
    var v := R.Text(e.value);
    var rest := if |es| == 1 then [] else [COMMA] + R.ElementsText(es[1..]);
    FirstElement(es);
    hide *;
    LaterText(es, k);
    Assoc(e.before + v + e.after, rest, [RBRACKET] + k);
    Assoc(e.before + v, e.after, rest + ([RBRACKET] + k));
    Assoc(e.before, v, e.after + (rest + ([RBRACKET] + k)));
  }

  lemma {:induction false} FirstElement(es: seq<R.Element>)
    requires es != []
    ensures R.ElementsText(es) == es[0].before + R.Text(es[0].value) + es[0].after
      + if |es| == 1 then [] else [COMMA] + R.ElementsText(es[1..])
  {
    hide R.Text;
  }

  lemma {:induction false} LaterText(es: seq<R.Element>, k: bytes)
    requires es != []
    ensures (if |es| == 1 then [] else [COMMA] + R.ElementsText(es[1..])) + ([RBRACKET] + k) == Later(es, k)
  {
    hide R.ElementsText;
    if |es| > 1 {
      Assoc([COMMA], R.ElementsText(es[1..]), [RBRACKET] + k);
    } else {
      assert [] + ([RBRACKET] + k) == [RBRACKET] + k;
    }
  }

  lemma {:induction false} ElementsRead(
      es: seq<R.Element>, k: bytes, acc: seq<Json>, broken: bool, lf: LoadFlags)
    requires es != []
    requires forall i :: 0 <= i < |es| ==> R.FormedElement(es[i]) && R.Formed(es[i].value, lf.rejectDuplicates)
    ensures var sc := Lex(R.ElementsText(es) + ([RBRACKET] + k), broken);
      && !sc.token.Stops() && sc.token != Punct(RBRACKET)
      && ParseItems(sc.token, sc.rest, broken, lf, acc) == Parsed(JArray(acc + R.ValuesOf(es)), k)
    decreases es, 0
  {
    hide Lex, ParseValue, ParseItems, R.Text, R.ElementsText, R.ValuesOf, R.Value, R.Formed;
    var e, later := es[0], Later(es, k);
    var v := R.Value(e.value);
    ElementsSplit(es, k);
    SkipSpace(e.before, R.Text(e.value) + (e.after + later), broken);
    SpaceEnds(e.value, e.after, later);
    ValueRead(e.value, e.after + later, broken, lf);
    SkipSpace(e.after, later, broken);
    var sc := Lex(R.Text(e.value) + (e.after + later), broken);
    ItemStep(sc.token, sc.rest, v, e.after + later, acc, broken, lf);
    ValuesFirst(es, acc);
    if |es| == 1 {
      LexPunct(RBRACKET, k, broken);
    } else {
      LexPunct(COMMA, R.ElementsText(es[1..]) + ([RBRACKET] + k), broken);
      ElementsRead(es[1..], k, acc + [v], broken, lf);
    }
  }

  lemma {:induction false} ValuesFirst(es: seq<R.Element>, acc: seq<Json>)
    requires es != []
    ensures acc + R.ValuesOf(es) == acc + [R.Value(es[0].value)] + R.ValuesOf(es[1..])
    ensures |es| == 1 ==> acc + R.ValuesOf(es) == acc + [R.Value(es[0].value)]
  {
    hide R.Value, R.ValuesOf;
    var tail := R.ValuesOf(es[1..]);
    assert R.ValuesOf(es) == [R.Value(es[0].value)] + tail;
    Assoc(acc, [R.Value(es[0].value)], tail);
  }

  // ---- what is derived is read: objects ----

  lemma {:induction false} RecordRead(t: R.Syntax, k: bytes, broken: bool, lf: LoadFlags)
    requires t.Record? && R.Formed(t, lf.rejectDuplicates)
    ensures Reads(R.Text(t), k, R.Value(t), broken, lf)
    decreases t, 0, 1
  {
    hide Lex, ParseMembers, ParseValue, R.PropertiesText, R.MembersOf;
    var ps := t.properties;
    var inner := (if ps == [] then t.blank else R.PropertiesText(ps)) + ([RBRACE] + k);
    Bracketed(LBRACE, if ps == [] then t.blank else R.PropertiesText(ps), RBRACE, k, broken);
    if ps == [] {
      SkipSpace(t.blank, [RBRACE] + k, broken);
      LexPunct(RBRACE, k, broken);
      EmptyList(inner, broken, lf);
      NoValues();
    } else {
      PropertiesRead(ps, k, map[], broken, lf);
      ObjectStep(inner, broken, lf);
      assert map[] + R.MembersOf(ps) == R.MembersOf(ps);
    }
  }

  function LaterMembers(ps: seq<R.Property>, k: bytes): bytes {
    if |ps| <= 1 then [RBRACE] + k else [COMMA] + (R.PropertiesText(ps[1..]) + ([RBRACE] + k))
  }

  /** The text behind the key of a member. */
  function BehindKey(ps: seq<R.Property>, k: bytes): bytes
    requires ps != []
  {
    var p := ps[0];
    p.beforeColon + ([COLON] + (p.afterColon + (R.Text(p.value) + (p.after + LaterMembers(ps, k)))))
  }

  lemma {:induction false} PropertiesSplit(ps: seq<R.Property>, k: bytes)
    requires ps != []
    ensures R.PropertiesText(ps) + ([RBRACE] + k) == ps[0].before + (R.QuotedText(ps[0].key) + BehindKey(ps, k))
  {
    var p := ps[0];
    var q, v := R.QuotedText(p.key), R.Text(p.value);
    var rest := if |ps| == 1 then [] else [COMMA] + R.PropertiesText(ps[1..]);
    FirstProperty(ps);
    BehindFirst(ps, k);
    LaterMembersText(ps, k);
    hide *;
    var end := rest + ([RBRACE] + k);
    Assoc(p.before + q + p.beforeColon + [COLON] + p.afterColon + v + p.after, rest, [RBRACE] + k);
    Assoc(p.before + q + p.beforeColon + [COLON] + p.afterColon + v, p.after, end);
    Assoc(p.before + q + p.beforeColon + [COLON] + p.afterColon, v, p.after + end);
    Assoc(p.before + q + p.beforeColon + [COLON], p.afterColon, v + (p.after + end));
    Assoc(p.before + q + p.beforeColon, [COLON], p.afterColon + (v + (p.after + end)));
    Assoc(p.before + q, p.beforeColon, [COLON] + (p.afterColon + (v + (p.after + end))));
    Assoc(p.before, q, p.beforeColon + ([COLON] + (p.afterColon + (v + (p.after + end)))));
  }

  lemma {:induction false} FirstProperty(ps: seq<R.Property>)
    requires ps != []
    ensures var p := ps[0];
      R.PropertiesText(ps) ==
        p.before + R.QuotedText(p.key) + p.beforeColon + [COLON] + p.afterColon + R.Text(p.value) + p.after
        + if |ps| == 1 then [] else [COMMA] + R.PropertiesText(ps[1..])
  {
    hide R.Text, R.QuotedText;
  }

  lemma BehindFirst(ps: seq<R.Property>, k: bytes)
    requires ps != []
    ensures var p := ps[0];
      BehindKey(ps, k) ==
        p.beforeColon + ([COLON] + (p.afterColon + (R.Text(p.value) + (p.after + LaterMembers(ps, k)))))
  {
  }

  lemma {:induction false} LaterMembersText(ps: seq<R.Property>, k: bytes)
    requires ps != []
    ensures (if |ps| == 1 then [] else [COMMA] + R.PropertiesText(ps[1..])) + ([RBRACE] + k) == LaterMembers(ps, k)
  {
    hide R.PropertiesText;
    if |ps| > 1 {
      Assoc([COMMA], R.PropertiesText(ps[1..]), [RBRACE] + k);
    } else {
      assert [] + ([RBRACE] + k) == [RBRACE] + k;
    }
  }

  /** Setting the members one after the other; the first of them was not there, if duplicates are refused. */
  lemma MembersFirst(ps: seq<R.Property>, acc: map<bytes, Json>)
    requires ps != []
    ensures acc[R.CharsBytes(ps[0].key) := R.Value(ps[0].value)] + R.MembersOf(ps[1..]) == acc + R.MembersOf(ps)
    ensures |ps| == 1 ==> acc[R.CharsBytes(ps[0].key) := R.Value(ps[0].value)] == acc + R.MembersOf(ps)
  {
    hide R.Value, R.CharsBytes;
    MembersFront(ps);
    var tail := R.MembersOf(ps[1..]);
    NoValues();
    assert |ps| == 1 ==> ps[1..] == [];
    hide R.MembersOf;
    SetThenAdd(acc, R.CharsBytes(ps[0].key), R.Value(ps[0].value), tail);
  }

  lemma {:induction false} MembersFront(ps: seq<R.Property>)
    requires ps != []
    ensures R.MembersOf(ps) == map[R.CharsBytes(ps[0].key) := R.Value(ps[0].value)] + R.MembersOf(ps[1..])
  {
    hide R.Value, R.CharsBytes;
    var n := |ps| - 1;
    var front := map[R.CharsBytes(ps[0].key) := R.Value(ps[0].value)];
    if n == 0 {
      assert ps[..0] == [] && ps[1..] == [];
    } else {
      var init, rest := ps[..n], ps[1..];
      MembersFront(init);
      assert init[1..] == rest[..n - 1];
      assert rest[n - 1] == ps[n];
      AddThenSet(front, R.MembersOf(rest[..n - 1]), R.CharsBytes(ps[n].key), R.Value(ps[n].value));
    }
  }

  lemma MemberRead(
      tok: Token, s: bytes, v: Json, s1: bytes, acc: map<bytes, Json>, broken: bool, lf: LoadFlags)
    requires tok.Str? && (lf.rejectDuplicates ==> tok.s !in acc)
    requires Lex(s, broken).token == Punct(COLON)
    requires var first := Lex(Lex(s, broken).rest, broken);
      ParseValue(first.token, first.rest, broken, lf) == Parsed(v, s1)
    ensures var t := Lex(s1, broken); var u := Lex(t.rest, broken);
      && (t.token == Punct(COMMA) ==>
        ParseMembers(tok, s, broken, lf, acc) == ParseMembers(u.token, u.rest, broken, lf, acc[tok.s := v]))
      && (t.token == Punct(RBRACE) ==>
        ParseMembers(tok, s, broken, lf, acc) == Parsed(JObject(acc[tok.s := v]), t.rest))
  {
  }

  lemma {:induction false} PropertiesRead(
      ps: seq<R.Property>, k: bytes, acc: map<bytes, Json>, broken: bool, lf: LoadFlags)
    requires ps != []
    requires forall i :: 0 <= i < |ps| ==> R.FormedProperty(ps[i]) && R.Formed(ps[i].value, lf.rejectDuplicates)
    requires lf.rejectDuplicates ==>
      R.DifferentKeys(ps) && forall i :: 0 <= i < |ps| ==> R.CharsBytes(ps[i].key) !in acc
    ensures var sc := Lex(R.PropertiesText(ps) + ([RBRACE] + k), broken);
      && sc.token.Str?
      && ParseMembers(sc.token, sc.rest, broken, lf, acc) == Parsed(JObject(acc + R.MembersOf(ps)), k)
    decreases ps, 0
  {
    hide Lex, ParseValue, ParseMembers, R.Text, R.PropertiesText, R.QuotedText, R.MembersOf, R.Value, R.Formed,
      R.FormedChars, R.CharsBytes;
    var p, later := ps[0], LaterMembers(ps, k);
    var v, key := R.Value(p.value), R.CharsBytes(p.key);
    var value := R.Text(p.value) + (p.after + later);
    var behind := BehindKey(ps, k);
    PropertiesSplit(ps, k);
    SkipSpace(p.before, R.QuotedText(p.key) + behind, broken);
    QuotedRead(p.key, behind, broken);
    SkipSpace(p.beforeColon, [COLON] + (p.afterColon + value), broken);
    LexPunct(COLON, p.afterColon + value, broken);
    SkipSpace(p.afterColon, value, broken);
    SpaceEnds(p.value, p.after, later);
    ValueRead(p.value, p.after + later, broken, lf);
    SkipSpace(p.after, later, broken);
    MemberRead(Str(key), behind, v, p.after + later, acc, broken, lf);
    MembersFirst(ps, acc);
    if |ps| == 1 {
      LexPunct(RBRACE, k, broken);
    } else {
      LexPunct(COMMA, R.PropertiesText(ps[1..]) + ([RBRACE] + k), broken);
      PropertiesRead(ps[1..], k, acc[key := v], broken, lf);
    }
  }

  // ---- what is read is derived: strings ----

  lemma DigitFound(c: byte)
    requires HexDigitValue(c).Some?
    ensures (48 <= c <= 57 || 65 <= c <= 90 || 97 <= c <= 122) && HexDigitValue(c).value == R.DigitOf(c)
  {
  }

  lemma HexFound(s: bytes)
    requires HexValue(s).Some?
    ensures |s| >= 4 && R.HexDigits(s[..4]) && HexValue(s).value == R.HexNumber(s[..4])
  {
    hide HexDigitValue, R.DigitOf;
    var d := s[..4];
    assert d[0] == s[0] && d[1] == s[1] && d[2] == s[2] && d[3] == s[3];
    DigitFound(s[0]);
    DigitFound(s[1]);
    DigitFound(s[2]);
    DigitFound(s[3]);
  }

  /** The escape at the head of the source text of a string. */
  lemma EscapeFound(p: bytes) returns (c: R.Char)
    requires |p| >= 6 && p[0] == BACKSLASH && p[1] == 117 && UnicodeAt(p).Point?
    ensures R.FormedChar(c) && R.CharBytes(c) == Utf8.Encode(UnicodeAt(p).cp)
    ensures UnicodeAt(p).size <= |p| && R.CharText(c) == p[..UnicodeAt(p).size]
  {
    hide HexValue, R.HexNumber, R.HexDigits, Utf8.Encode;
    HexFound(p[2..]);
    assert p[2..][..4] == p[2..6];
    FourDigits(p[2..6]);
    if UnicodeAt(p).size == 12 {
      HexFound(p[8..]);
      assert p[8..][..4] == p[8..12];
      FourDigits(p[8..12]);
      c := R.Surrogates(p[2..6], p[8..12]);
      assert p[..12] == [BACKSLASH, 117] + p[2..6] + [BACKSLASH, 117] + p[8..12];
    } else {
      c := R.Hex(p[2..6]);
      assert p[..6] == [BACKSLASH, 117] + p[2..6];
    }
  }

  lemma {:induction false} CharsFound(s: bytes, n: nat) returns (cs: seq<R.Char>)
    requires StringEnd(s) == Some(n) && Unescape(s[..n]).Decoded?
    ensures R.FormedChars(cs) && s[..n] == R.CharsText(cs) + [QUOTE] && R.CharsBytes(cs) == Unescape(s[..n]).s
    decreases |s|
  {
    var p := s[..n];
    assert p[0] == s[0];
    if s[0] == QUOTE {
      cs := [];
      assert p == [] + [QUOTE];
    } else {
      var c: R.Char;
      var size := OneChar(s, n);
      hide StringEnd, Unescape;
      if s[0] != BACKSLASH {
        c := R.Raw(s[0]);
      } else if s[1] != 117 {
        c := R.Short(s[1]);
      } else {
        c := EscapeFound(p);
      }
      var rest := CharsFound(s[size..], n - size);
      cs := [c] + rest;
      assert p[..size] == R.CharText(c);
      hide *;
      assert p == p[..size] + s[size..][..n - size];
      Assoc(R.CharText(c), R.CharsText(rest), [QUOTE]);
      OneMoreChar(c, rest);
    }
  }

  lemma OneMoreChar(c: R.Char, rest: seq<R.Char>)
    ensures R.CharsText([c] + rest) == R.CharText(c) + R.CharsText(rest)
    ensures R.CharsBytes([c] + rest) == R.CharBytes(c) + R.CharsBytes(rest)
    ensures R.FormedChar(c) && R.FormedChars(rest) ==> R.FormedChars([c] + rest)
  {
    hide R.CharText, R.CharBytes, R.FormedChar;
    assert ([c] + rest)[1..] == rest;
  }

  /** How far the first character of a string reaches, and what is left to scan and unescape. */
  lemma OneChar(s: bytes, n: nat) returns (size: nat)
    requires StringEnd(s) == Some(n) && Unescape(s[..n]).Decoded? && s[0] != QUOTE
    ensures 0 < size < n && StringEnd(s[size..]) == Some(n - size) && Unescape(s[size..][..n - size]).Decoded?
    ensures s[..n][size..] == s[size..][..n - size]
    ensures s[0] != BACKSLASH ==>
      && size == 1 && R.FormedChar(R.Raw(s[0]))
      && Unescape(s[..n]).s == [s[0]] + Unescape(s[1..][..n - 1]).s
    ensures s[0] == BACKSLASH ==> n > 2
    ensures s[0] == BACKSLASH && s[1] != 117 ==>
      && size == 2 && R.FormedChar(R.Short(s[1]))
      && Unescape(s[..n]).s == R.CharBytes(R.Short(s[1])) + Unescape(s[2..][..n - 2]).s
    ensures s[0] == BACKSLASH && s[1] == 117 ==>
      && n > 6 && UnicodeAt(s[..n]).Point? && size == UnicodeAt(s[..n]).size
      && Unescape(s[..n]).s == Utf8.Encode(UnicodeAt(s[..n]).cp) + Unescape(s[size..][..n - size]).s
  {
    hide UnicodeAt;
    var p := s[..n];
    assert p[0] == s[0];
    if s[0] != BACKSLASH {
      size := 1;
    } else {
      assert p[1] == s[1];
      if s[1] != 117 {
        size := 2;
      } else {
        SixBehind(s, s[6..]);
        size := UnicodeAt(p).size;
        PointSize(p);
        if size == 12 {
          assert s[6..][0] == p[6] && s[6..][1] == p[7];
          StringSix(s[6..]);
          assert s[6..][6..] == s[12..];
        }
      }
    }
    assert p[size..] == s[size..][..n - size];
  }

  lemma PointSize(p: bytes)
    requires |p| >= 2 && UnicodeAt(p).Point?
    ensures UnicodeAt(p).size == 6 || UnicodeAt(p).size == 12
    ensures UnicodeAt(p).size == 12 ==> |p| >= 12 && p[6] == BACKSLASH && p[7] == 117
  {
  }

  lemma StringSix(s: bytes)
    requires StringEnd(s).Some? && |s| >= 2 && s[0] == BACKSLASH && s[1] == 117
    ensures |s| >= 6 && StringEnd(s) == Behind(StringEnd(s[6..]), 6)
  {
  }

  lemma QuotedFound(s: bytes) returns (cs: seq<R.Char>)
    requires LexString(s).token.Str?
    ensures R.FormedChars(cs) && [QUOTE] + s == R.QuotedText(cs) + LexString(s).rest
    ensures R.CharsBytes(cs) == LexString(s).token.s
  {
    hide StringEnd, Unescape, R.CharsText, R.CharsBytes, R.FormedChars;
    var n := StringEnd(s).value;
    cs := CharsFound(s, n);
    assert s == s[..n] + s[n..];
    Assoc([QUOTE], R.CharsText(cs) + [QUOTE], s[n..]);
    Assoc([QUOTE], R.CharsText(cs), [QUOTE]);
  }

  // ---- what is read is derived: numbers and words ----

  /** The sign and the digits in front of `b`. */
  lemma WholeFound(s: bytes, b: nat) returns (n: R.Number)
    requires IntegerEnd(s) == Some(b)
    ensures n.frac == None && n.exp == None && R.Digits(n.whole) && (n.whole[0] == 48 ==> |n.whole| == 1)
    ensures b <= |s| && s[..b] == (if n.minus then [MINUS] else []) + n.whole && (b < |s| ==> !IsDigit(s[b]))
  {
    var a := if s[0] == MINUS then 1 else 0;
    n := R.Number(s[0] == MINUS, s[a..b], None, None);
    assert s[..b] == s[..a] + s[a..b];
    assert forall i :: 0 <= i < b - a ==> s[a..b][i] == s[a..][i];
    if s[a] != 48 {
      assert b < |s| ==> s[b] == s[a..][b - a];
    }
  }

  lemma ExponentFound(s: bytes, n: nat) returns (e: Option<R.Exponent>)
    requires ExponentEnd(s) == Some(n)
    ensures e.Some? ==> R.FormedExponent(e.value)
    ensures n <= |s| && s[..n] == R.ExpText(e)
    ensures n < |s| ==> (e.Some? ==> !IsDigit(s[n])) && (e.None? ==> s[n] != 69 && s[n] != 101)
    ensures e.None? ==> n == 0
  {
    if n == 0 {
      e := None;
    } else {
      var a := if |s| > 1 && (s[1] == 43 || s[1] == 45) then 2 else 1;
      e := Some(R.Exponent(s[0], s[1..a], s[a..n]));
      assert s[..n] == [s[0]] + s[1..a] + s[a..n];
      assert forall i :: 0 <= i < n - a ==> s[a..n][i] == s[a..][i];
      assert n < |s| ==> s[n] == s[a..][n - a];
      assert a == 2 ==> s[1..a] == [s[1]];
    }
  }

  lemma RealFound(s: bytes, n: nat) returns (f: Option<bytes>, e: Option<R.Exponent>)
    requires RealEnd(s) == Some(n) && StartsReal(s)
    ensures (f.Some? ==> R.Digits(f.value)) && (e.Some? ==> R.FormedExponent(e.value)) && (f.Some? || e.Some?)
    ensures n <= |s| && s[..n] == R.FracText(f) + R.ExpText(e)
    ensures n < |s| ==> !IsDigit(s[n]) && (e.None? ==> s[n] != 69 && s[n] != 101)
  {
    hide ExponentEnd, R.FormedExponent, R.Digits, RealEnd;
    if s[0] == POINT {
      var d := FracFound(s);
      f := Some(s[1..1 + d]);
      var rest := s[1 + d..];
      e := ExponentFound(rest, n - 1 - d);
      assert s[..n] == s[..1 + d] + rest[..n - 1 - d];
      assert n < |s| ==> s[n] == rest[n - 1 - d];
    } else {
      f := None;
      NoFrac(s);
      SomeExponent(s);
      e := ExponentFound(s, n);
      assert s[..n] == [] + R.ExpText(e);
    }
  }

  lemma FracFound(s: bytes) returns (d: nat)
    requires s != [] && s[0] == POINT && RealEnd(s).Some?
    ensures 1 + d <= |s| && R.Digits(s[1..1 + d]) && s[..1 + d] == [POINT] + s[1..1 + d]
    ensures RealEnd(s) == Behind(ExponentEnd(s[1 + d..]), 1 + d)
    ensures 1 + d < |s| ==> !IsDigit(s[1 + d])
  {
    hide ExponentEnd;
    d := DigitRun(s[1..]);
    assert forall i :: 0 <= i < d ==> s[1..1 + d][i] == s[1..][i];
    assert 1 + d < |s| ==> s[1 + d] == s[1..][d];
  }

  lemma SomeExponent(s: bytes)
    requires s != [] && (s[0] == 69 || s[0] == 101) && ExponentEnd(s).Some?
    ensures ExponentEnd(s).value > 0
  {
  }

  lemma NumeralFound(s: bytes) returns (n: R.Number)
    requires LexNumber(s).token.Int? || LexNumber(s).token.Real?
    ensures R.FormedNumber(n) && s == R.NumberText(n) + LexNumber(s).rest
    ensures R.Ends(R.Numeral(n), LexNumber(s).rest)
    ensures LexNumber(s).token == if n.frac.None? && n.exp.None? then Int(R.Whole(n)) else Real(R.NumberText(n))
  {
    hide IntegerEnd, RealEnd, IntValue, R.Whole, R.FracText, R.ExpText, R.Digits, R.FormedExponent, StartsReal;
    var b := IntegerEnd(s).value;
    var w := WholeFound(s, b);
    if !StartsReal(s[b..]) {
      n := w;
      WholeRead(n, s[..b]);
      NoReal(n);
      assert s == s[..b] + s[b..];
      NotReal(n, s[b..]);
    } else {
      n := RealNumber(s, b, w);
    }
  }

  lemma NotReal(n: R.Number, rest: bytes)
    requires n.frac == None && n.exp == None && !StartsReal(rest) && (rest != [] ==> !IsDigit(rest[0]))
    ensures R.Ends(R.Numeral(n), rest)
  {
  }

  lemma RealNumber(s: bytes, b: nat, w: R.Number) returns (n: R.Number)
    requires b <= |s| && StartsReal(s[b..]) && RealEnd(s[b..]).Some?
    requires w.frac == None && w.exp == None && R.Digits(w.whole) && (w.whole[0] == 48 ==> |w.whole| == 1)
    requires s[..b] == (if w.minus then [MINUS] else []) + w.whole
    ensures var m := RealEnd(s[b..]).value;
      && R.FormedNumber(n) && b + m <= |s| && s[..b + m] == R.NumberText(n) && s == R.NumberText(n) + s[b + m..]
      && (n.frac.Some? || n.exp.Some?) && R.Ends(R.Numeral(n), s[b + m..])
  {
    hide RealEnd, R.Whole, R.FracText, R.ExpText, R.Digits, R.FormedExponent, StartsReal;
    var m := RealEnd(s[b..]).value;
    var f, e := RealFound(s[b..], m);
    n := w.(frac := f, exp := e);
    NumberParts(n, []);
    assert s[..b + m] == s[..b] + s[b..][..m];
    assert s == s[..b + m] + s[b + m..];
    assert s[b + m..] != [] ==> s[b + m..][0] == s[b..][m];
  }

  /** A word and what follows it. */
  lemma WordFound(s: bytes) returns (t: R.Syntax)
    requires LexWord(s).token == KwTrue || LexWord(s).token == KwFalse || LexWord(s).token == KwNull
    ensures t.NullWord? || t.TrueWord? || t.FalseWord?
    ensures s == R.Text(t) + LexWord(s).rest && R.Ends(t, LexWord(s).rest)
    ensures R.Value(t) ==
      match LexWord(s).token
      case KwTrue => JTrue
      case KwFalse => JFalse
      case _ => JNull
  {
    var n := AlphaRun(s);
    assert s == s[..n] + s[n..];
    assert s[n..] != [] ==> s[n..][0] == s[n];
    t := if s[..n] == TRUE_TEXT then R.TrueWord else if s[..n] == FALSE_TEXT then R.FalseWord else R.NullWord;
  }

  // ---- what is read is derived: values ----

  /** The white space in front of the next token, and the token's first byte. */
  lemma {:induction false} SpaceFound(s: bytes, broken: bool) returns (g: bytes, u: bytes)
    ensures s == g + u && R.Space(g) && Lex(u, broken) == Lex(s, broken) && (u != [] ==> !IsSpace(u[0]))
  {
    hide LexString, LexNumber, LexWord;
    if s != [] && IsSpace(s[0]) {
      g, u := SpaceFound(s[1..], broken);
      Assoc([s[0]], g, u);
      g := [s[0]] + g;
    } else {
      g, u := [], s;
    }
  }

  lemma PunctFound(s: bytes, c: byte, broken: bool) returns (g: bytes)
    requires Lex(s, broken).token == Punct(c)
    ensures R.Space(g) && s == g + ([c] + Lex(s, broken).rest)
  {
    var u;
    g, u := SpaceFound(s, broken);
    PunctHead(u, c, broken);
  }

  lemma PunctHead(u: bytes, c: byte, broken: bool)
    requires (u != [] ==> !IsSpace(u[0])) && Lex(u, broken).token == Punct(c)
    ensures u == [c] + Lex(u, broken).rest
  {
  }

  lemma TextFound(s: bytes, broken: bool) returns (g: bytes, cs: seq<R.Char>)
    requires Lex(s, broken).token.Str?
    ensures R.Space(g) && R.FormedChars(cs) && s == g + (R.QuotedText(cs) + Lex(s, broken).rest)
    ensures R.CharsBytes(cs) == Lex(s, broken).token.s
  {
    hide LexString, LexNumber, LexWord, R.QuotedText, R.CharsBytes;
    var u;
    g, u := SpaceFound(s, broken);
    NumberOrText(u);
    assert u[0] == QUOTE;
    cs := QuotedFound(u[1..]);
    assert u == [QUOTE] + u[1..];
  }

  lemma NumberOrText(u: bytes)
    ensures !LexNumber(u).token.Str? && !LexNumber(u).token.Punct?
    ensures !LexNumber(u).token.KwTrue? && !LexNumber(u).token.KwFalse? && !LexNumber(u).token.KwNull?
    ensures !LexWord(u).token.Str? && !LexWord(u).token.Punct? && !LexWord(u).token.Int? && !LexWord(u).token.Real?
    ensures u != [] ==>
      var q := LexString(u[1..]).token;
      !q.Punct? && !q.Int? && !q.Real? && !q.KwTrue? && !q.KwFalse? && !q.KwNull?
  {
    hide IntegerEnd, RealEnd, IntValue, AlphaRun, StringEnd, Unescape;
  }

  lemma LeafFound(s: bytes, v: Json, k: bytes, broken: bool, lf: LoadFlags) returns (g: bytes, t: R.Syntax)
    requires var sc := Lex(s, broken);
      !sc.token.Punct? && ParseValue(sc.token, sc.rest, broken, lf) == Parsed(v, k)
    ensures R.Space(g) && R.Formed(t, lf.rejectDuplicates) && R.Value(t) == v && R.Ends(t, k)
    ensures s == g + (R.Text(t) + k)
  {
    hide LexString, LexNumber, LexWord, R.QuotedText, R.CharsBytes, R.NumberText, R.FormedNumber, R.Whole,
      R.FormedChars;
    var u;
    g, u := SpaceFound(s, broken);
    NumberOrText(u);
    var sc := Lex(u, broken);
    if sc.token.Str? {
      var g', cs := TextFound(u, broken);
      NoSpaceFirst(g', u, R.QuotedText(cs) + sc.rest);
      t := R.Quoted(cs);
    } else if sc.token.Int? || sc.token.Real? {
      var n := NumeralFound(u);
      t := R.Numeral(n);
    } else {
      t := WordFound(u);
    }
  }

  lemma NoSpaceFirst(g: bytes, u: bytes, rest: bytes)
    requires u == g + rest && R.Space(g) && u != [] && !IsSpace(u[0])
    ensures g == [] && u == rest
  {
    assert u[0] == (g + rest)[0];
  }

  lemma {:induction false} ValueFound(s: bytes, v: Json, k: bytes, broken: bool, lf: LoadFlags)
      returns (g: bytes, t: R.Syntax)
    requires var sc := Lex(s, broken); ParseValue(sc.token, sc.rest, broken, lf) == Parsed(v, k)
    ensures R.Space(g) && R.Formed(t, lf.rejectDuplicates) && R.Value(t) == v && R.Ends(t, k)
    ensures s == g + (R.Text(t) + k)
    ensures Lex(s, broken).token == Punct(LBRACKET) ==> t.List?
    ensures Lex(s, broken).token == Punct(LBRACE) ==> t.Record?
    ensures t.List? ==> Lex(s, broken).token == Punct(LBRACKET)
    ensures t.Record? ==> Lex(s, broken).token == Punct(LBRACE)
    decreases |s|, 2
  {
    hide Lex, ParseItems, ParseMembers, R.Formed, R.Text, R.Value;
    var sc := Lex(s, broken);
    if sc.token == Punct(LBRACKET) {
      g := PunctFound(s, LBRACKET, broken);
      t := ListFound(sc.rest, v, k, broken, lf);
      assert g + ([LBRACKET] + sc.rest) == g + (R.Text(t) + k);
    } else if sc.token == Punct(LBRACE) {
      g := PunctFound(s, LBRACE, broken);
      t := RecordFound(sc.rest, v, k, broken, lf);
    } else {
      g, t := LeafFound(s, v, k, broken, lf);
      LeafOnly(s, v, k, broken, lf, t);
    }
  }

  lemma LeafOnly(s: bytes, v: Json, k: bytes, broken: bool, lf: LoadFlags, t: R.Syntax)
    requires var sc := Lex(s, broken);
      !sc.token.Punct? && ParseValue(sc.token, sc.rest, broken, lf) == Parsed(v, k) && R.Value(t) == v
    ensures !t.List? && !t.Record?
  {
  }

  lemma {:induction false} ListFound(s: bytes, v: Json, k: bytes, broken: bool, lf: LoadFlags) returns (t: R.Syntax)
    requires ParseValue(Punct(LBRACKET), s, broken, lf) == Parsed(v, k)
    ensures t.List? && R.Formed(t, lf.rejectDuplicates) && R.Value(t) == v && [LBRACKET] + s == R.Text(t) + k
    decreases |s|, 4
  {
    hide Lex, ParseItems, R.ElementsText, R.ValuesOf;
    var sc := Lex(s, broken);
    if sc.token == Punct(RBRACKET) {
      var g := PunctFound(s, RBRACKET, broken);
      EmptyList(s, broken, lf);
      t := R.List(g, []);
      NoValues();
      assert [LBRACKET] + (g + ([RBRACKET] + k)) == [LBRACKET] + g + [RBRACKET] + k;
    } else {
      ArrayHeads(s, broken, lf);
      var es := ElementsFound(s, v, k, [], broken, lf);
      t := R.List([], es);
      assert [] + R.ValuesOf(es) == R.ValuesOf(es);
      assert [LBRACKET] + (R.ElementsText(es) + ([RBRACKET] + k)) == [LBRACKET] + R.ElementsText(es) + [RBRACKET] + k;
    }
  }

  lemma ArrayHeads(s: bytes, broken: bool, lf: LoadFlags)
    ensures var t := Lex(s, broken);
      && (t.token != Punct(RBRACKET) ==>
        && ParseValue(Punct(LBRACKET), s, broken, lf) ==
          if t.token.Stops() then Failed else ParseItems(t.token, t.rest, broken, lf, []))
      && (t.token != Punct(RBRACE) ==>
        && ParseValue(Punct(LBRACE), s, broken, lf) ==
          if t.token.Stops() then Failed else ParseMembers(t.token, t.rest, broken, lf, map[]))
  {
  }

  lemma ItemFound(tok: Token, s: bytes, acc: seq<Json>, broken: bool, lf: LoadFlags)
    requires ParseItems(tok, s, broken, lf, acc).Parsed?
    ensures var p := ParseValue(tok, s, broken, lf);
      && p.Parsed? && |p.rest| <= |s|
      && var t := Lex(p.rest, broken); var u := Lex(t.rest, broken);
        && (t.token == Punct(COMMA) || t.token == Punct(RBRACKET))
        && (t.token == Punct(COMMA) ==>
          ParseItems(tok, s, broken, lf, acc) == ParseItems(u.token, u.rest, broken, lf, acc + [p.value]))
        && (t.token == Punct(RBRACKET) ==>
          ParseItems(tok, s, broken, lf, acc) == Parsed(JArray(acc + [p.value]), t.rest))
  {
  }

  lemma LexShrinks(s: bytes, broken: bool)
    ensures !Lex(s, broken).token.Stops() ==> |Lex(s, broken).rest| < |s|
  {
  }

  lemma NoStop(tok: Token, s: bytes, broken: bool, lf: LoadFlags)
    ensures ParseValue(tok, s, broken, lf).Parsed? ==> !tok.Stops()
  {
  }

  lemma {:induction false} ElementsFound(
      s: bytes, v: Json, k: bytes, acc: seq<Json>, broken: bool, lf: LoadFlags) returns (es: seq<R.Element>)
    requires var sc := Lex(s, broken); ParseItems(sc.token, sc.rest, broken, lf, acc) == Parsed(v, k)
    ensures es != [] && v == JArray(acc + R.ValuesOf(es)) && s == R.ElementsText(es) + ([RBRACKET] + k)
    ensures forall i :: 0 <= i < |es| ==> R.FormedElement(es[i]) && R.Formed(es[i].value, lf.rejectDuplicates)
    decreases |s|, 3
  {
    hide Lex, ParseItems, ParseValue, R.ElementsText, R.ValuesOf, R.Text, R.Value, R.Formed, R.Ends;
    var sc := Lex(s, broken);
    ItemFound(sc.token, sc.rest, acc, broken, lf);
    NoStop(sc.token, sc.rest, broken, lf);
    LexShrinks(s, broken);
    var p := ParseValue(sc.token, sc.rest, broken, lf);
    var g, t := ValueFound(s, p.value, p.rest, broken, lf);
    var next := Lex(p.rest, broken);
    if next.token == Punct(COMMA) {
      var after := PunctFound(p.rest, COMMA, broken);
      LexShrinks(p.rest, broken);
      var rest := ElementsFound(next.rest, v, k, acc + [p.value], broken, lf);
      es := [R.Element(g, t, after)] + rest;
      assert es[1..] == rest;
    } else {
      var after := PunctFound(p.rest, RBRACKET, broken);
      es := [R.Element(g, t, after)];
    }
    ElementsSplit(es, k);
    ValuesFirst(es, acc);
  }

  lemma {:induction false} RecordFound(s: bytes, v: Json, k: bytes, broken: bool, lf: LoadFlags) returns (t: R.Syntax)
    requires ParseValue(Punct(LBRACE), s, broken, lf) == Parsed(v, k)
    ensures t.Record? && R.Formed(t, lf.rejectDuplicates) && R.Value(t) == v && [LBRACE] + s == R.Text(t) + k
    decreases |s|, 4
  {
    hide Lex, ParseMembers, R.PropertiesText, R.MembersOf;
    var sc := Lex(s, broken);
    if sc.token == Punct(RBRACE) {
      var g := PunctFound(s, RBRACE, broken);
      EmptyList(s, broken, lf);
      t := R.Record(g, []);
      NoValues();
      assert [LBRACE] + (g + ([RBRACE] + k)) == [LBRACE] + g + [RBRACE] + k;
    } else {
      ArrayHeads(s, broken, lf);
      var ps := PropertiesFound(s, v, k, map[], broken, lf);
      t := R.Record([], ps);
      assert map[] + R.MembersOf(ps) == R.MembersOf(ps);
      assert [LBRACE] + (R.PropertiesText(ps) + ([RBRACE] + k)) == [LBRACE] + R.PropertiesText(ps) + [RBRACE] + k;
    }
  }

  lemma MemberFound(tok: Token, s: bytes, acc: map<bytes, Json>, broken: bool, lf: LoadFlags)
    requires ParseMembers(tok, s, broken, lf, acc).Parsed?
    ensures tok.Str? && (lf.rejectDuplicates ==> tok.s !in acc) && Lex(s, broken).token == Punct(COLON)
    ensures var first := Lex(Lex(s, broken).rest, broken);
      var p := ParseValue(first.token, first.rest, broken, lf);
      && p.Parsed? && |p.rest| <= |first.rest|
      && var t := Lex(p.rest, broken); var u := Lex(t.rest, broken);
        && (t.token == Punct(COMMA) || t.token == Punct(RBRACE))
        && (t.token == Punct(COMMA) ==>
          ParseMembers(tok, s, broken, lf, acc) == ParseMembers(u.token, u.rest, broken, lf, acc[tok.s := p.value]))
        && (t.token == Punct(RBRACE) ==>
          ParseMembers(tok, s, broken, lf, acc) == Parsed(JObject(acc[tok.s := p.value]), t.rest))
  {
  }

  lemma {:induction false} PropertiesFound(
      s: bytes, v: Json, k: bytes, acc: map<bytes, Json>, broken: bool, lf: LoadFlags) returns (ps: seq<R.Property>)
    requires var sc := Lex(s, broken); ParseMembers(sc.token, sc.rest, broken, lf, acc) == Parsed(v, k)
    ensures ps != [] && v == JObject(acc + R.MembersOf(ps)) && s == R.PropertiesText(ps) + ([RBRACE] + k)
    ensures forall i :: 0 <= i < |ps| ==> R.FormedProperty(ps[i]) && R.Formed(ps[i].value, lf.rejectDuplicates)
    ensures lf.rejectDuplicates ==> R.DifferentKeys(ps) && forall i :: 0 <= i < |ps| ==> R.CharsBytes(ps[i].key) !in acc
    decreases |s|, 3
  {
    hide Lex, ParseMembers, ParseValue, R.PropertiesText, R.MembersOf, R.Text, R.Value, R.Formed, R.Ends,
      R.CharsBytes, R.FormedChars, R.QuotedText;
    var sc := Lex(s, broken);
    MemberFound(sc.token, sc.rest, acc, broken, lf);
    var before, key := TextFound(s, broken);
    LexShrinks(s, broken);
    var colon := Lex(sc.rest, broken);
    var beforeColon := PunctFound(sc.rest, COLON, broken);
    LexShrinks(sc.rest, broken);
    var first := Lex(colon.rest, broken);
    var p := ParseValue(first.token, first.rest, broken, lf);
    NoStop(first.token, first.rest, broken, lf);
    LexShrinks(colon.rest, broken);
    var g, t := ValueFound(colon.rest, p.value, p.rest, broken, lf);
    var next := Lex(p.rest, broken);
    if next.token == Punct(COMMA) {
      var after := PunctFound(p.rest, COMMA, broken);
      LexShrinks(p.rest, broken);
      var rest := PropertiesFound(next.rest, v, k, acc[sc.token.s := p.value], broken, lf);
      ps := [R.Property(before, key, beforeColon, g, t, after)] + rest;
      assert ps[1..] == rest;
    } else {
      var after := PunctFound(p.rest, RBRACE, broken);
      ps := [R.Property(before, key, beforeColon, g, t, after)];
    }
    PropertiesSplit(ps, k);
    MembersFirst(ps, acc);
  }

  // ---- whole texts ----

  lemma {:induction false} CutValid(a: bytes, b: bytes)
    requires Utf8.Valid(a + b) && (a != [] ==> a[|a| - 1] < 0x80)
    ensures Utf8.Valid(a)
    decreases |a|
  {
    if a == [] {
      Utf8.ValidEmpty();
    } else {
      var s := a + b;
      Utf8.ValidStep(s);
      Utf8.ValidStep(a);
      var n := Utf8.DecodeOne(s).value.size;
      CharInside(a, b);
      assert s[n..] == a[n..] + b;
      CutValid(a[n..], b);
    }
  }

  /** A character that starts in `a` ends in `a`, as the last byte of `a` is a character of its own. */
  lemma CharInside(a: bytes, b: bytes)
    requires a != [] && a[|a| - 1] < 0x80 && Utf8.DecodeOne(a + b).Some?
    ensures 1 <= Utf8.DecodeOne(a + b).value.size <= |a| && Utf8.DecodeOne(a) == Utf8.DecodeOne(a + b)
  {
    var s := a + b;
    Utf8.EncodeInvertsDecode(s);
    var c := Utf8.DecodeOne(s).value;
    var e := Utf8.Encode(c.cp);
    assert s[|a| - 1] == a[|a| - 1];
    assert c.size >= |a| ==> s[..c.size][|a| - 1] == s[|a| - 1];
    assert |e| > 1 ==> forall i :: 0 <= i < |e| ==> e[i] >= 0x80;
    assert a == e + a[c.size..] by {
      assert a[..c.size] == s[..c.size];
    }
    Utf8.DecodeInvertsEncode(c.cp, a[c.size..]);
  }

  lemma {:induction false} TextLast(t: R.Syntax, unique: bool)
    requires R.Formed(t, unique)
    ensures R.Text(t) != [] && R.Text(t)[|R.Text(t)| - 1] < 0x80
  {
    hide R.ElementsText, R.PropertiesText, R.CharsText, R.Whole;
  }

  /** What follows the decodable part of a text starts with a byte of 0x80 or more. */
  lemma BrokenHead(text: bytes)
    requires |Utf8.ValidPrefix(text)| < |text|
    ensures text[|Utf8.ValidPrefix(text)|] >= 0x80
    decreases |text|
  {
    var c := Utf8.DecodeOne(text);
    if c.Some? && 1 <= c.value.size <= |text| {
      var rest := text[c.value.size..];
      BrokenHead(rest);
    }
  }

  lemma EndOfText(s: bytes, broken: bool)
    ensures Lex(s, broken).token == EndOfFile <==> R.Space(s) && !broken
  {
    var g, u := SpaceFound(s, broken);
    NoEnd(u, broken);
    if R.Space(s) {
      SpaceBlank(s);
      LexSkipsBlank(s, [], broken);
      assert s + [] == s;
    }
    assert u == [] ==> s == g;
  }

  lemma NoEnd(u: bytes, broken: bool)
    requires u != [] ==> !IsSpace(u[0])
    ensures Lex(u, broken).token == EndOfFile <==> u == [] && !broken
  {
    hide IntegerEnd, RealEnd, IntValue, AlphaRun, StringEnd, Unescape;
  }

  lemma EndsPrefix(t: R.Syntax, tail: bytes, k: bytes)
    requires R.Ends(t, tail) && k <= tail
    ensures R.Ends(t, k)
  {
  }

  lemma BracketFirst(t: R.Syntax, k: bytes, broken: bool)
    ensures t.List? ==> Lex(R.Text(t) + k, broken).token == Punct(LBRACKET)
    ensures t.Record? ==> Lex(R.Text(t) + k, broken).token == Punct(LBRACE)
  {
    hide Lex, R.ElementsText, R.PropertiesText;
    match t
    case List(blank, es) => Bracketed(LBRACKET, if es == [] then blank else R.ElementsText(es), RBRACKET, k, broken);
    case Record(blank, ps) => Bracketed(LBRACE, if ps == [] then blank else R.PropertiesText(ps), RBRACE, k, broken);
    case _ =>
  }

  lemma DerivedLoads(text: bytes, v: Json, flags: LoadFlags, lead: bytes, t: R.Syntax, tail: bytes)
    requires R.DerivesAs(
      text, v, flags.rejectDuplicates, flags.decodeAny, flags.disableEofCheck, lead, t, tail)
    ensures Load(text, flags) == Some(v)
  {
    hide Lex, ParseValue, R.Text, R.Value, R.Formed;
    var s := Utf8.ValidPrefix(text);
    var k := Utf8.ValidPrefix(tail);
    Utf8.ValidConcat(lead + R.Text(t), tail);
    Assoc(lead, R.Text(t), k);
    var broken := s != text;
    if !flags.disableEofCheck {
      SpaceBlank(tail);
      Utf8.AsciiValid(tail);
      SpaceEnds(t, tail, []);
      assert tail + [] == tail;
      EndOfText(k, broken);
    }
    EndsPrefix(t, tail, k);
    ValueRead(t, k, broken, flags);
    SkipSpace(lead, R.Text(t) + k, broken);
    BracketFirst(t, k, broken);
  }

  lemma LoadedDerives(text: bytes, v: Json, flags: LoadFlags)
    requires Load(text, flags) == Some(v)
    ensures R.Derives(text, v, flags.rejectDuplicates, flags.decodeAny, flags.disableEofCheck)
  {
    hide Lex, ParseValue, R.Text, R.Value, R.Formed, Utf8.ValidPrefix, R.Ends;
    var s := Utf8.ValidPrefix(text);
    var broken := s != text;
    var sc := Lex(s, broken);
    var k := ParseValue(sc.token, sc.rest, broken, flags).rest;
    var g, t := ValueFound(s, v, k, broken, flags);
    TextLast(t, flags.rejectDuplicates);
    Assoc(g, R.Text(t), k);
    WholePrefix(text);
    CutValid(g + R.Text(t), k);
    var tail := k + text[|s|..];
    assert text == s + text[|s|..];
    Assoc(g + R.Text(t), k, text[|s|..]);
    EndOfText(k, broken);
    if broken {
      BrokenHead(text);
    }
    EndsOn(t, k, text[|s|..]);
    assert !flags.disableEofCheck ==> tail == k;
    assert R.DerivesAs(text, v, flags.rejectDuplicates, flags.decodeAny, flags.disableEofCheck, g, t, tail);
  }

  lemma EndsOn(t: R.Syntax, k: bytes, r: bytes)
    requires R.Ends(t, k) && (r != [] ==> r[0] >= 0x80)
    ensures R.Ends(t, k + r)
  {
  }

  lemma {:induction false} WholePrefix(text: bytes)
    ensures Utf8.Valid(Utf8.ValidPrefix(text)) && Utf8.ValidPrefix(text) <= text
    decreases |text|
  {
    var c := if text == [] then None else Utf8.DecodeOne(text);
    if c.Some? && 1 <= c.value.size <= |text| {
      var n := c.value.size;
      WholePrefix(text[n..]);
      Utf8.EncodeInvertsDecode(text);
      FirstValid(text);
      Utf8.ValidConcat(text[..n], Utf8.ValidPrefix(text[n..]));
    } else {
      Utf8.ValidEmpty();
    }
  }

  lemma FirstValid(text: bytes)
    requires text != [] && Utf8.DecodeOne(text).Some?
    ensures Utf8.Valid(text[..Utf8.DecodeOne(text).value.size])
  {
    Utf8.EncodeInvertsDecode(text);
    var cp := Utf8.DecodeOne(text).value.cp;
    Utf8.ValidOfEncoding([cp]);
    assert Utf8.EncodeAll([cp]) == Utf8.Encode(cp) + Utf8.EncodeAll([cp][1..]);
    assert Utf8.Encode(cp) + [] == Utf8.Encode(cp);
  }

  /**
   * The loader gives a value exactly when the text derives it: with JSON_REJECT_DUPLICATES the keys of an object must
   * differ, with JSON_DECODE_ANY the value need not be an array or an object, with JSON_DISABLE_EOF_CHECK anything
   * may follow it.
   */
  lemma LoadIffDerives(text: bytes, flags: LoadFlags, v: Json)
    ensures Load(text, flags) == Some(v) <==>
      R.Derives(text, v, flags.rejectDuplicates, flags.decodeAny, flags.disableEofCheck)
  {
    hide Load, R.DerivesAs;
    if Load(text, flags) == Some(v) {
      LoadedDerives(text, v, flags);
    }
    if R.Derives(text, v, flags.rejectDuplicates, flags.decodeAny, flags.disableEofCheck) {
      var lead, t, tail :| R.DerivesAs(
        text, v, flags.rejectDuplicates, flags.decodeAny, flags.disableEofCheck, lead, t, tail);
      DerivedLoads(text, v, flags, lead, t, tail);
    }
  }
}
