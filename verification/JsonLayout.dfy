/**
 * The text of a dump: the syntax tree it spells has exactly the white space, the escapes and the member order its
 * flags ask for (module JsonStyle).
 */
module JsonLayout {
  import opened Bytes
  import opened JsonValue
  import opened JsonOrder
  import opened JsonPrint
  import opened StringCodec
  import JsonRoundTrip
  import JsonDerivation
  import G = JsonGrammar
  import R = Rfc4627
  import Y = JsonStyle
  import Utf8

  // ---- strings ----

  function RawChars(e: bytes): (r: seq<R.Char>)
    ensures |r| == |e| && forall i :: 0 <= i < |r| ==> r[i] == R.Raw(e[i])
  {
    seq(|e|, i requires 0 <= i < |e| => R.Raw(e[i]))
  }

  function Digits(v: nat): bytes
    requires v < 0x10000
  {
    [HexDigit(v / 4096), HexDigit(v / 256 % 16), HexDigit(v / 16 % 16), HexDigit(v % 16)]
  }

  function EscapeOf(cp: int): R.Char
    requires Utf8.IsScalar(cp)
  {
    if cp == 92 || cp == 34 then R.Short(cp)
    else if cp == 8 then R.Short(98)
    else if cp == 12 then R.Short(102)
    else if cp == 10 then R.Short(110)
    else if cp == 13 then R.Short(114)
    else if cp == 9 then R.Short(116)
    else if cp < 0x10000 then R.Hex(Digits(cp))
    else R.Surrogates(Digits(0xD800 + (cp - 0x10000) / 1024), Digits(0xDC00 + (cp - 0x10000) % 1024))
  }

  lemma DigitsSpell(v: nat)
    requires v < 0x10000
    ensures R.HexDigits(Digits(v)) && R.HexNumber(Digits(v)) == v && Y.LowerCase(Digits(v))
    ensures UnicodeEscape(v) == [92, 117] + Digits(v)
  {
    HexDigitIs(v / 4096);
    HexDigitIs(v / 256 % 16);
    HexDigitIs(v / 16 % 16);
    HexDigitIs(v % 16);
    InBase16(v);
    hide HexDigit, R.DigitOf;
    var d := Digits(v);
    assert d[0] == HexDigit(v / 4096) && d[1] == HexDigit(v / 256 % 16);
    assert d[2] == HexDigit(v / 16 % 16) && d[3] == HexDigit(v % 16);
  }

  lemma InBase16(v: nat)
    ensures v == 4096 * (v / 4096) + 256 * (v / 256 % 16) + 16 * (v / 16 % 16) + v % 16
  {
    var a, b := v / 16, v / 256;
    assert a == 16 * (a / 16) + a % 16 && b == 16 * (b / 16) + b % 16;
    assert a / 16 == b && b / 16 == v / 4096;
  }

  lemma HexDigitIs(d: nat)
    requires d < 16
    ensures R.DigitOf(HexDigit(d)) == d && (48 <= HexDigit(d) <= 57 || 97 <= HexDigit(d) <= 102)
  {
  }

  lemma EscapeShape(cp: int, ascii: bool)
    requires Utf8.IsScalar(cp) && cp != 0 && (cp == 92 || cp == 34 || cp < 0x20 || (ascii && cp > 0x7F))
    ensures R.CharText(EscapeOf(cp)) == Escape(cp) && R.CharBytes(EscapeOf(cp)) == Utf8.Encode(cp)
    ensures R.FormedChar(EscapeOf(cp)) && Y.StyledChar(EscapeOf(cp), ascii)
  {
    hide Digits, UnicodeEscape, R.HexNumber, R.HexDigits, Y.LowerCase;
    if cp >= 0x10000 {
      var high, low := 0xD800 + (cp - 0x10000) / 1024, 0xDC00 + (cp - 0x10000) % 1024;
      DigitsSpell(high);
      DigitsSpell(low);
      assert [92, 117] + Digits(high) + ([92, 117] + Digits(low)) == [92, 117] + Digits(high) + [92, 117] + Digits(low);
      assert 0x10000 + (high - 0xD800) * 0x400 + (low - 0xDC00) == cp;
    } else {
      DigitsSpell(cp);
    }
  }

  function CharsOf(s: bytes, ascii: bool): seq<R.Char>
    requires Utf8.Valid(s)
    decreases |s|
  {
    if s == [] then []
    else
      Utf8.ValidStep(s);
      var c := Utf8.DecodeOne(s).value;
      Utf8.EncodeInvertsDecode(s);
      (if NeedsEscape(c.cp, ascii) then [EscapeOf(c.cp)] else RawChars(s[..c.size])) + CharsOf(s[c.size..], ascii)
  }

  lemma {:induction false} RawText(e: bytes)
    ensures R.CharsText(RawChars(e)) == e && R.CharsBytes(RawChars(e)) == e
  {
    if e != [] {
      RawText(e[1..]);
      assert RawChars(e)[1..] == RawChars(e[1..]);
    }
  }

  lemma {:induction false} CharsJoin(a: seq<R.Char>, b: seq<R.Char>)
    ensures R.CharsText(a + b) == R.CharsText(a) + R.CharsText(b)
    ensures R.CharsBytes(a + b) == R.CharsBytes(a) + R.CharsBytes(b)
  {
    hide R.CharText, R.CharBytes;
    if a == [] {
      assert a + b == b;
    } else {
      CharsJoin(a[1..], b);
      assert (a + b)[1..] == a[1..] + b;
      Assoc(R.CharText(a[0]), R.CharsText(a[1..]), R.CharsText(b));
      Assoc(R.CharBytes(a[0]), R.CharsBytes(a[1..]), R.CharsBytes(b));
    }
  }

  /** What is written for one character of a string. */
  lemma OneShape(s: bytes, ascii: bool) returns (cs: seq<R.Char>)
    requires s != [] && NulFree(s) && Utf8.DecodeOne(s).Some? && Utf8.DecodeOne(s).value.size <= |s|
    ensures var c := Utf8.DecodeOne(s).value;
      && Utf8.IsScalar(c.cp)
      && cs == (if NeedsEscape(c.cp, ascii) then [EscapeOf(c.cp)] else RawChars(s[..c.size]))
      && R.CharsText(cs) == (if NeedsEscape(c.cp, ascii) then Escape(c.cp) else s[..c.size])
      && R.CharsBytes(cs) == s[..c.size] && R.FormedChars(cs) && Y.StyledChars(cs, ascii)
  {
    var c := Utf8.DecodeOne(s).value;
    Utf8.EncodeInvertsDecode(s);
    var e := Utf8.Encode(c.cp);
    assert s[0] == s[..c.size][0] == e[0];
    hide Utf8.DecodeOne;
    if NeedsEscape(c.cp, ascii) {
      EscapeShape(c.cp, ascii);
      hide EscapeOf, R.CharText, R.CharBytes, R.FormedChar, Y.StyledChar;
      cs := [EscapeOf(c.cp)];
      assert cs[1..] == [];
      assert R.CharsText([]) == [] && R.CharsBytes([]) == [];
    } else {
      cs := RawChars(e);
      RawText(e);
      assert |e| == 1 ==> e[0] == c.cp;
      assert |e| > 1 ==> forall i :: 0 <= i < |e| ==> e[i] >= 0x80;
      assert |e| > 1 ==> c.cp > 0x7F;
    }
  }

  lemma {:induction false} StringShape(s: bytes, ascii: bool)
    requires Utf8.Valid(s) && NulFree(s)
    ensures R.CharsText(CharsOf(s, ascii)) == EscapeAll(s, ascii) && R.CharsBytes(CharsOf(s, ascii)) == s
    ensures R.FormedChars(CharsOf(s, ascii)) && Y.StyledChars(CharsOf(s, ascii), ascii)
    decreases |s|
  {
    hide R.FormedChar, Y.StyledChar;
    if s != [] {
      Utf8.ValidStep(s);
      var c := Utf8.DecodeOne(s).value;
      Utf8.EncodeInvertsDecode(s);
      var rest := s[c.size..];
      StringShape(rest, ascii);
      var cs := OneShape(s, ascii);
      CharsJoin(cs, CharsOf(rest, ascii));
      assert s == s[..c.size] + rest;
    }
  }

  lemma QuotedShape(s: bytes, ascii: bool)
    requires JsonRoundTrip.IsCString(s)
    ensures R.QuotedText(CharsOf(s, ascii)) == PrintString(s, ascii).text
  {
    StringShape(s, ascii);
    PrintStringText(s, ascii);
  }

  // ---- values ----

  function Key(s: bytes, flags: Flags): seq<R.Char> {
    if Utf8.Valid(s) then CharsOf(s, flags.ensureAscii) else []
  }

  /** The syntax tree of what is written for a value inside `d` containers, its members in writing order. */
  function Shape(t: Tree, flags: Flags, d: nat): R.Syntax {
    match t
    case Null => R.NullWord
    case True => R.TrueWord
    case False => R.FalseWord
    case Integer(i) => R.Numeral(R.Number(i < 0, PrintNat(if i < 0 then -i else i), None, None))
    case Text(s) => R.Quoted(Key(s, flags))
    case Array(items) =>
      R.List([], seq(|items|, i requires 0 <= i < |items| =>
        R.Element(Gap(flags, d + 1, i > 0), Shape(items[i], flags, d + 1),
                  if i == |items| - 1 then Gap(flags, d, false) else [])))
    case Object(ms) =>
      R.Record([], seq(|ms|, i requires 0 <= i < |ms| =>
        R.Property(Gap(flags, d + 1, i > 0), Key(ms[i].key, flags), [], if flags.compact then [] else [SPACE],
                   Shape(ms[i].value, flags, d + 1), if i == |ms| - 1 then Gap(flags, d, false) else [])))
  }

  lemma IntegerShape(i: int)
    requires INT_MIN <= i <= INT_MAX
    ensures var n := R.Number(i < 0, PrintNat(if i < 0 then -i else i), None, None);
      R.FormedNumber(n) && R.Whole(n) == i && R.NumberText(n) == PrintInt(i)
  {
    JsonRoundTrip.PrintNatDigits(if i < 0 then -i else i);
    hide PrintNat, R.Decimal, G.NatValue;
    var d := PrintNat(if i < 0 then -i else i);
    JsonDerivation.DecimalRead(d);
    assert d + [] + [] == d && [MINUS] + d + [] + [] == [MINUS] + d && [] + d == d;
  }

  /** The syntax tree spells the text. */
  lemma {:induction false} ShapeText(t: Tree, flags: Flags, d: nat)
    requires JsonRoundTrip.Speakable(t)
    ensures R.Text(Shape(t, flags, d)) == Print(t, flags, d)
    decreases t, 1
  {
    hide R.ElementsText, R.PropertiesText, PrintItems, PrintMembers, PrintInt, R.NumberText, Gap;
    match t
    case Integer(i) => IntegerShape(i);
    case Text(s) => QuotedShape(s, flags.ensureAscii);
    case Array(items) =>
      if items != [] {
        ItemsShape(t, flags, d, 0);
        var es := Shape(t, flags, d).elements;
        assert es[0..] == es && items[0..] == items;
        Assoc([LBRACKET], Gap(flags, d + 1, false), PrintItems(items, flags, d));
      }
    case Object(ms) =>
      if ms != [] {
        MembersShape(t, flags, d, 0);
        var ps := Shape(t, flags, d).properties;
        assert ps[0..] == ps && ms[0..] == ms;
        Assoc([LBRACE], Gap(flags, d + 1, false), PrintMembers(ms, flags, d));
      }
    case _ =>
  }

  lemma {:induction false} ItemsShape(t: Tree, flags: Flags, d: nat, k: nat)
    requires JsonRoundTrip.Speakable(t) && t.Array? && k < |t.items|
    ensures R.ElementsText(Shape(t, flags, d).elements[k..]) ==
      Gap(flags, d + 1, k > 0) + PrintItems(t.items[k..], flags, d)
    decreases t, 0, |t.items| - k
  {
    hide R.Text, Print, Gap;
    var items, es := t.items, Shape(t, flags, d).elements;
    var last := k == |items| - 1;
    ShapeText(items[k], flags, d + 1);
    assert es[k..][1..] == es[k + 1..] && items[k..][1..] == items[k + 1..];
    if !last {
      ItemsShape(t, flags, d, k + 1);
    }
    var v := Print(items[k], flags, d + 1);
    var rest := if last then [] else [COMMA] + R.ElementsText(es[k + 1..]);
    assert R.ElementsText(es[k..]) == es[k].before + v + es[k].after + rest;
    assert PrintItems(items[k..], flags, d) == v + After(last, flags, d) + PrintItems(items[k + 1..], flags, d);
    assert last ==> PrintItems(items[k + 1..], flags, d) == [];
    hide R.ElementsText, PrintItems;
    Rejoin(es[k].before, v, Gap(flags, d, false), Gap(flags, d + 1, true), PrintItems(items[k + 1..], flags, d));
  }

  lemma Rejoin(g: bytes, v: bytes, close: bytes, next: bytes, tail: bytes)
    ensures g + v + close + [] == g + (v + close + [])
    ensures g + v + [] + ([COMMA] + (next + tail)) == g + (v + ([COMMA] + next) + tail)
  {
    assert v + ([COMMA] + next) + tail == v + ([COMMA] + (next + tail));
    Assoc(g, v, [COMMA] + (next + tail));
    Assoc(g, v, close);
  }

  lemma {:induction false} MembersShape(t: Tree, flags: Flags, d: nat, k: nat)
    requires JsonRoundTrip.Speakable(t) && t.Object? && k < |t.members|
    ensures R.PropertiesText(Shape(t, flags, d).properties[k..]) ==
      Gap(flags, d + 1, k > 0) + PrintMembers(t.members[k..], flags, d)
    decreases t, 0, |t.members| - k
  {
    hide R.Text, Print, Gap, R.QuotedText, PrintString;
    var ms, ps := t.members, Shape(t, flags, d).properties;
    var last := k == |ms| - 1;
    ShapeText(ms[k].value, flags, d + 1);
    QuotedShape(ms[k].key, flags.ensureAscii);
    assert ps[k..][1..] == ps[k + 1..] && ms[k..][1..] == ms[k + 1..];
    if !last {
      MembersShape(t, flags, d, k + 1);
    }
    var key, v := PrintString(ms[k].key, flags.ensureAscii).text, Print(ms[k].value, flags, d + 1);
    var rest := if last then [] else [COMMA] + R.PropertiesText(ps[k + 1..]);
    var colon := if flags.compact then [] else [SPACE];
    assert R.PropertiesText(ps[k..]) == ps[k].before + key + [] + [COLON] + colon + v + ps[k].after + rest;
    assert PrintMembers(ms[k..], flags, d) ==
      key + Separator(flags) + v + After(last, flags, d) + PrintMembers(ms[k + 1..], flags, d);
    assert last ==> PrintMembers(ms[k + 1..], flags, d) == [];
    assert Separator(flags) == [COLON] + colon;
    hide R.PropertiesText, PrintMembers, Separator;
    RejoinKey(ps[k].before, key, colon, v);
    Rejoin(ps[k].before, key + ([COLON] + colon) + v, Gap(flags, d, false), Gap(flags, d + 1, true),
           PrintMembers(ms[k + 1..], flags, d));
  }

  lemma RejoinKey(g: bytes, key: bytes, colon: bytes, v: bytes)
    ensures g + key + [] + [COLON] + colon + v == g + (key + ([COLON] + colon) + v)
  {
    assert g + key + [] == g + key;
    Assoc(g + key, [COLON], colon);
    Assoc(g, key, [COLON] + colon);
    Assoc(g, key + ([COLON] + colon), v);
  }

  lemma KeyShape(s: bytes, flags: Flags)
    requires JsonRoundTrip.IsCString(s)
    ensures R.FormedChars(Key(s, flags)) && Y.StyledChars(Key(s, flags), flags.ensureAscii)
    ensures R.CharsBytes(Key(s, flags)) == s
  {
    StringShape(s, flags.ensureAscii);
  }

  lemma {:induction false} MarginLine(w: width, d: nat)
    ensures |Margin(w, d)| == w * d && forall i :: 0 <= i < |Margin(w, d)| ==> Margin(w, d)[i] == 32
  {
    if d > 0 {
      MarginLine(w, d - 1);
      SpacesOnly(w);
      assert w * d == w * (d - 1) + w;
    }
  }

  lemma {:induction false} SpacesOnly(n: nat)
    ensures |Spaces(n)| == n && forall i :: 0 <= i < n ==> Spaces(n)[i] == 32
  {
    if n > 0 {
      SpacesOnly(n - 1);
    }
  }

  /** The gaps of the text are the white space asked for. */
  lemma GapShape(flags: Flags, d: nat, i: nat)
    ensures Y.Leading(Gap(flags, d + 1, i > 0), i, flags.indent, flags.compact, d)
    ensures R.Space(Gap(flags, d + 1, i > 0)) && R.Space(Gap(flags, d, false))
    ensures Y.Trailing(Gap(flags, d, false), true, flags.indent, d)
  {
    MarginLine(flags.indent, d);
    MarginLine(flags.indent, d + 1);
  }

  lemma {:induction false} ShapeFormed(t: Tree, flags: Flags, d: nat)
    requires JsonRoundTrip.Speakable(t) && WellKeyed(t)
    ensures R.Formed(Shape(t, flags, d), true)
  {
    hide Gap, R.FormedNumber, R.FormedChars, R.CharsBytes, Key, PrintNat;
    match t
    case Integer(i) => IntegerShape(i);
    case Text(s) => KeyShape(s, flags);
    case Array(items) =>
      forall i | 0 <= i < |items|
        ensures R.FormedElement(Shape(t, flags, d).elements[i]) && R.Formed(Shape(items[i], flags, d + 1), true)
      {
        GapShape(flags, d, i);
        ShapeFormed(items[i], flags, d + 1);
      }
    case Object(ms) =>
      forall i | 0 <= i < |ms|
        ensures R.Formed(Shape(ms[i].value, flags, d + 1), true)
      {
        ShapeFormed(ms[i].value, flags, d + 1);
      }
      RecordFormed(t, flags, d);
    case _ =>
  }

  lemma RecordFormed(t: Tree, flags: Flags, d: nat)
    requires t.Object? && JsonRoundTrip.Speakable(t) && WellKeyed(t)
    requires forall i :: 0 <= i < |t.members| ==> R.Formed(Shape(t.members[i].value, flags, d + 1), true)
    ensures R.Formed(Shape(t, flags, d), true)
  {
    hide Gap, R.FormedChars, R.CharsBytes, Key, PrintNat;
    var ms, ps := t.members, Shape(t, flags, d).properties;
    forall i | 0 <= i < |ms|
      ensures R.FormedProperty(ps[i]) && R.CharsBytes(ps[i].key) == ms[i].key
    {
      GapShape(flags, d, i);
      KeyShape(ms[i].key, flags);
    }
    assert R.DifferentKeys(ps);
  }

  lemma {:induction false} ShapeLaid(t: Tree, flags: Flags, d: nat)
    ensures Y.Laid(Shape(t, flags, d), flags.indent, flags.compact, d)
  {
    hide Gap, Key, PrintNat, Y.Leading, Y.Trailing;
    match t
    case Array(items) =>
      forall i | 0 <= i < |items|
        ensures Y.Leading(Gap(flags, d + 1, i > 0), i, flags.indent, flags.compact, d)
        ensures Y.Laid(Shape(items[i], flags, d + 1), flags.indent, flags.compact, d + 1)
        ensures Y.Trailing(Gap(flags, d, false), true, flags.indent, d) && Y.Trailing([], false, flags.indent, d)
      {
        GapShape(flags, d, i);
        NotLast(flags.indent, d);
        ShapeLaid(items[i], flags, d + 1);
      }
    case Object(ms) =>
      forall i | 0 <= i < |ms|
        ensures Y.Leading(Gap(flags, d + 1, i > 0), i, flags.indent, flags.compact, d)
        ensures Y.Laid(Shape(ms[i].value, flags, d + 1), flags.indent, flags.compact, d + 1)
        ensures Y.Trailing(Gap(flags, d, false), true, flags.indent, d) && Y.Trailing([], false, flags.indent, d)
      {
        GapShape(flags, d, i);
        NotLast(flags.indent, d);
        ShapeLaid(ms[i].value, flags, d + 1);
      }
    case _ =>
  }

  lemma NotLast(n: nat, d: nat)
    ensures Y.Trailing([], false, n, d)
  {
  }

  lemma {:induction false} ShapeStyled(t: Tree, flags: Flags, d: nat)
    requires JsonRoundTrip.Speakable(t)
    ensures Y.Styled(Shape(t, flags, d), flags.ensureAscii)
  {
    hide Gap, Key, PrintNat, Y.StyledChars;
    match t
    case Text(s) => KeyShape(s, flags);
    case Array(items) =>
      forall i | 0 <= i < |items|
        ensures Y.Styled(Shape(items[i], flags, d + 1), flags.ensureAscii)
      {
        ShapeStyled(items[i], flags, d + 1);
      }
    case Object(ms) =>
      forall i | 0 <= i < |ms|
        ensures Y.StyledChars(Key(ms[i].key, flags), flags.ensureAscii)
        ensures Y.Styled(Shape(ms[i].value, flags, d + 1), flags.ensureAscii)
      {
        KeyShape(ms[i].key, flags);
        ShapeStyled(ms[i].value, flags, d + 1);
      }
    case _ =>
  }

  // ---- member order ----

  /** Sorting members does not look at their values. */
  lemma {:induction false} InsertReordered(order: Order, o: Order, m: Member, ms: seq<Member>)
    ensures Insert(order, m.(value := Reorder(m.value, o)), ReorderMembers(ms, o))
      == ReorderMembers(Insert(order, m, ms), o)
  {
    hide Reorder, ReorderMembers, Insert, Before;
    var rs, m' := ReorderMembers(ms, o), m.(value := Reorder(m.value, o));
    InsertStep(order, m, ms);
    InsertStep(order, m', rs);
    if ms != [] {
      SameBefore(order, o, m, ms[0]);
    }
    if ms != [] && !Before(order, m, ms[0]) {
      InsertReordered(order, o, m, ms[1..]);
      ReorderFirst(ms[0], ms[1..], o);
      assert ms == [ms[0]] + ms[1..];
      ReorderFirst(ms[0], Insert(order, m, ms[1..]), o);
    } else {
      ReorderFirst(m, ms, o);
    }
  }

  lemma InsertStep(order: Order, m: Member, ms: seq<Member>)
    ensures Insert(order, m, ms) ==
      if ms == [] || Before(order, m, ms[0]) then [m] + ms else [ms[0]] + Insert(order, m, ms[1..])
  {
  }

  lemma SameBefore(order: Order, o: Order, a: Member, b: Member)
    ensures Before(order, a.(value := Reorder(a.value, o)), b.(value := Reorder(b.value, o))) == Before(order, a, b)
  {
    hide Reorder, KeyLess;
  }

  lemma ReorderFirst(m: Member, ms: seq<Member>, o: Order)
    ensures ReorderMembers([m] + ms, o) == [m.(value := Reorder(m.value, o))] + ReorderMembers(ms, o)
  {
    hide Reorder, ReorderMembers;
  }

  lemma {:induction false} ArrangeReordered(order: Order, o: Order, ms: seq<Member>)
    ensures Arrange(order, ReorderMembers(ms, o)) == ReorderMembers(Arrange(order, ms), o)
  {
    hide Reorder, Insert, ReorderMembers, Arrange;
    ArrangeStep(order, ms);
    ArrangeStep(order, ReorderMembers(ms, o));
    if order != AsStored && ms != [] {
      ArrangeReordered(order, o, ms[1..]);
      assert ms == [ms[0]] + ms[1..];
      ReorderFirst(ms[0], ms[1..], o);
      InsertReordered(order, o, ms[0], Arrange(order, ms[1..]));
    }
  }

  lemma ArrangeStep(order: Order, ms: seq<Member>)
    ensures Arrange(order, ms) ==
      if order == AsStored || ms == [] then ms else Insert(order, ms[0], Arrange(order, ms[1..]))
  {
    hide Insert;
  }

  lemma {:induction false} KeyLessAscends(a: bytes, b: bytes)
    requires KeyLess(a, b)
    ensures Y.Ascending(a, b)
  {
    if a == [] || a[0] != b[0] {
      assert Y.AscendingAt(a, b, 0);
    } else {
      KeyLessAscends(a[1..], b[1..]);
      var i: nat :| Y.AscendingAt(a[1..], b[1..], i);
      assert a[..i + 1] == [a[0]] + a[1..][..i] && b[..i + 1] == [b[0]] + b[1..][..i];
      assert Y.AscendingAt(a, b, i + 1);
    }
  }

  lemma WrittenOrder(ms: seq<Member>, flags: Flags)
    requires DistinctKeys(ms) && DistinctSerials(ms)
    ensures Y.Ordered(Arrange(OrderOf(flags), ms), ms, flags.sortKeys, flags.preserveOrder)
  {
    hide KeyLess, Insert;
    var written := Arrange(OrderOf(flags), ms);
    if flags.sortKeys {
      ArrangeSorted(ByKey, ms);
      forall i, j | 0 <= i < j < |written|
        ensures Y.Ascending(written[i].key, written[j].key)
      {
        assert Before(ByKey, written[i], written[j]);
        KeyLessAscends(written[i].key, written[j].key);
      }
    } else if flags.preserveOrder {
      ArrangeSorted(BySerial, ms);
      assert forall i, j :: 0 <= i < j < |written| ==> Before(BySerial, written[i], written[j]);
    }
  }

  lemma {:induction false} ShapeWrites(t: Tree, flags: Flags, d: nat)
    requires JsonRoundTrip.Speakable(t) && WellKeyed(t)
    ensures Y.Writes(Shape(Reorder(t, OrderOf(flags)), flags, d), t, flags.sortKeys, flags.preserveOrder)
    decreases t, 1
  {
    hide *;
    match t
    case Array(items) => ArrayWrites(t, flags, d);
    case Object(ms) => ObjectWrites(t, flags, d);
    case _ => LeafWrites(t, flags, d);
  }

  lemma LeafWrites(t: Tree, flags: Flags, d: nat)
    requires JsonRoundTrip.Speakable(t) && !t.Array? && !t.Object?
    ensures Y.Writes(Shape(Reorder(t, OrderOf(flags)), flags, d), t, flags.sortKeys, flags.preserveOrder)
  {
    hide Key, PrintNat, R.Whole, R.CharsBytes, R.FormedNumber;
    match t
    case Integer(i) => IntegerShape(i);
    case Text(s) => KeyShape(s, flags);
    case _ =>
  }

  lemma {:induction false} ArrayWrites(t: Tree, flags: Flags, d: nat)
    requires t.Array? && JsonRoundTrip.Speakable(t) && WellKeyed(t)
    ensures Y.Writes(Shape(Reorder(t, OrderOf(flags)), flags, d), t, flags.sortKeys, flags.preserveOrder)
    decreases t, 0
  {
    hide Gap, Reorder, Y.Writes;
    var order, items := OrderOf(flags), t.items;
    var c := Shape(Reorder(t, order), flags, d);
    ArrayReordered(t, order);
    forall i | 0 <= i < |items|
      ensures Y.Writes(c.elements[i].value, items[i], flags.sortKeys, flags.preserveOrder)
    {
      ShapeWrites(items[i], flags, d + 1);
    }
    WritesList(c, t, flags.sortKeys, flags.preserveOrder);
  }

  lemma WritesList(c: R.Syntax, t: Tree, sort: bool, preserve: bool)
    requires c.List? && t.Array? && |c.elements| == |t.items|
    requires forall i :: 0 <= i < |t.items| ==> Y.Writes(c.elements[i].value, t.items[i], sort, preserve)
    ensures Y.Writes(c, t, sort, preserve)
  {
  }

  lemma WritesRecord(c: R.Syntax, t: Tree, written: seq<Member>, sort: bool, preserve: bool)
    requires c.Record? && t.Object? && Y.Ordered(written, t.members, sort, preserve)
    requires |written| == |c.properties|
    requires forall i :: 0 <= i < |written| ==>
      R.CharsBytes(c.properties[i].key) == written[i].key
      && Y.Writes(c.properties[i].value, written[i].value, sort, preserve)
    ensures Y.Writes(c, t, sort, preserve)
  {
    hide Y.Ordered, R.CharsBytes;
  }

  lemma ArrayReordered(t: Tree, order: Order)
    requires t.Array?
    ensures Reorder(t, order) == Array(ReorderItems(t.items, order))
  {
  }

  lemma {:induction false} ObjectWrites(t: Tree, flags: Flags, d: nat)
    requires t.Object? && JsonRoundTrip.Speakable(t) && WellKeyed(t)
    ensures Y.Writes(Shape(Reorder(t, OrderOf(flags)), flags, d), t, flags.sortKeys, flags.preserveOrder)
    decreases t, 0
  {
    hide Gap, Key, R.CharsBytes, Arrange, Y.Ordered, Reorder, Y.Writes;
    var order, ms := OrderOf(flags), t.members;
    var written := Arrange(order, ms);
    var c := Shape(Reorder(t, order), flags, d);
    ObjectReordered(t, order);
    WrittenOrder(ms, flags);
    SameMembers(written, ms);
    forall i | 0 <= i < |written|
      ensures R.CharsBytes(c.properties[i].key) == written[i].key
      ensures Y.Writes(c.properties[i].value, written[i].value, flags.sortKeys, flags.preserveOrder)
    {
      var j := MemberIndex(written[i], ms);
      KeyShape(ms[j].key, flags);
      ShapeWrites(ms[j].value, flags, d + 1);
    }
    WritesRecord(c, t, written, flags.sortKeys, flags.preserveOrder);
  }

  lemma MemberIndex(m: Member, ms: seq<Member>) returns (j: nat)
    requires m in ms
    ensures j < |ms| && ms[j] == m
  {
    j :| 0 <= j < |ms| && ms[j] == m;
  }

  lemma ObjectReordered(t: Tree, order: Order)
    requires t.Object?
    ensures Reorder(t, order) == Object(ReorderMembers(Arrange(order, t.members), order))
  {
    ArrangeReordered(order, order, t.members);
  }

  // ---- whole dumps ----

  /** The layout, the escapes and the member order of the text of a dump, for every flag combination. */
  lemma DumpShape(t: Tree, flags: Flags) returns (c: R.Syntax)
    requires JsonRoundTrip.Speakable(t) && WellKeyed(t)
    ensures Dump(t, flags) == R.Text(c) && R.Formed(c, true)
    ensures Y.Laid(c, flags.indent, flags.compact, 0) && Y.Styled(c, flags.ensureAscii)
    ensures Y.Writes(c, t, flags.sortKeys, flags.preserveOrder)
  {
    hide *;
    var order := OrderOf(flags);
    c := Shape(Reorder(t, order), flags, 0);
    DumpIs(t, flags);
    ReorderKeepsMeaning(t, order);
    JsonRoundTrip.ReorderSpeakable(t, order);
    ShapeText(Reorder(t, order), flags, 0);
    ShapeFormed(Reorder(t, order), flags, 0);
    ShapeLaid(Reorder(t, order), flags, 0);
    ShapeStyled(Reorder(t, order), flags, 0);
    ShapeWrites(t, flags, 0);
  }

  lemma DumpIs(t: Tree, flags: Flags)
    ensures Dump(t, flags) == Print(Reorder(t, OrderOf(flags)), flags, 0)
  {
  }

  // ---- the bytes: ASCII ----

  predicate Ascii(s: bytes) {
    forall i :: 0 <= i < |s| ==> s[i] < 0x80
  }

  lemma CharAscii(c: R.Char)
    requires R.FormedChar(c) && Y.StyledChar(c, true)
    ensures Ascii(R.CharText(c))
  {
  }

  lemma {:induction false} CharsAscii(cs: seq<R.Char>)
    requires R.FormedChars(cs) && Y.StyledChars(cs, true)
    ensures Ascii(R.CharsText(cs))
  {
    hide R.FormedChar, Y.StyledChar, R.CharText;
    if cs != [] {
      CharAscii(cs[0]);
      CharsAscii(cs[1..]);
    }
  }

  lemma NumberAscii(n: R.Number)
    requires R.FormedNumber(n)
    ensures Ascii(R.NumberText(n))
  {
    hide R.Whole;
  }

  lemma {:induction false} ValueAscii(c: R.Syntax)
    requires R.Formed(c, true) && Y.Styled(c, true)
    ensures Ascii(R.Text(c))
    decreases c, 1
  {
    hide R.NumberText, R.CharsText, R.ElementsText, R.PropertiesText, R.FormedNumber, R.FormedChars, Y.StyledChars;
    match c
    case Numeral(n) => NumberAscii(n);
    case Quoted(cs) => CharsAscii(cs);
    case List(_, es) => ElementsAscii(c, 0);
      assert es[0..] == es;
    case Record(_, ps) => PropertiesAscii(c, 0);
      assert ps[0..] == ps;
    case _ =>
  }

  lemma {:induction false} ElementsAscii(c: R.Syntax, k: nat)
    requires c.List? && R.Formed(c, true) && Y.Styled(c, true) && k <= |c.elements|
    ensures Ascii(R.ElementsText(c.elements[k..]))
    decreases c, 0, |c.elements| - k
  {
    hide R.Text, R.FormedNumber, R.FormedChars, Y.StyledChars;
    var es := c.elements;
    if k < |es| {
      ValueAscii(es[k].value);
      ElementsAscii(c, k + 1);
      assert es[k..][1..] == es[k + 1..];
      JsonDerivation.FirstElement(es[k..]);
      hide R.ElementsText;
      SpaceAscii(es[k].before);
      SpaceAscii(es[k].after);
    }
  }

  lemma SpaceAscii(s: bytes)
    requires R.Space(s)
    ensures Ascii(s)
  {
  }

  lemma {:induction false} PropertiesAscii(c: R.Syntax, k: nat)
    requires c.Record? && R.Formed(c, true) && Y.Styled(c, true) && k <= |c.properties|
    ensures Ascii(R.PropertiesText(c.properties[k..]))
    decreases c, 0, |c.properties| - k
  {
    hide R.Text, R.CharsText, R.FormedChars, Y.StyledChars;
    var ps := c.properties;
    if k < |ps| {
      var p := ps[k];
      ValueAscii(p.value);
      PropertiesAscii(c, k + 1);
      assert ps[k..][1..] == ps[k + 1..];
      JsonDerivation.FirstProperty(ps[k..]);
      CharsAscii(p.key);
      hide R.PropertiesText;
      SpaceAscii(p.before);
      SpaceAscii(p.beforeColon);
      SpaceAscii(p.afterColon);
      SpaceAscii(p.after);
      SevenAscii(p.before, R.QuotedText(p.key), p.beforeColon, p.afterColon, R.Text(p.value), p.after,
                 if |ps[k..]| == 1 then [] else [COMMA] + R.PropertiesText(ps[k + 1..]));
    }
  }

  lemma SevenAscii(a: bytes, b: bytes, c: bytes, d: bytes, e: bytes, f: bytes, g: bytes)
    requires Ascii(a) && Ascii(b) && Ascii(c) && Ascii(d) && Ascii(e) && Ascii(f) && Ascii(g)
    ensures Ascii(a + b + c + [COLON] + d + e + f + g)
  {
  }

  /** JSON_ENSURE_ASCII */
  lemma AsciiDump(t: Tree, flags: Flags)
    requires JsonRoundTrip.Speakable(t) && WellKeyed(t) && flags.ensureAscii
    ensures forall i :: 0 <= i < |Dump(t, flags)| ==> Dump(t, flags)[i] < 0x80
  {
    hide Dump, R.Formed, Y.Styled, Y.Laid, Y.Writes;
    var c := DumpShape(t, flags);
    ValueAscii(c);
  }

  // ---- the bytes: COMPACT ----

  lemma {:induction false} ReachJoin(p: Y.Place, a: bytes, b: bytes)
    ensures Y.Reach(p, a + b) == Y.Reach(Y.Reach(p, a), b)
    decreases |b|
  {
    if b == [] {
      assert a + b == a;
    } else {
      ReachJoin(p, a, b[..|b| - 1]);
      assert (a + b)[..|a + b| - 1] == a + b[..|b| - 1];
    }
  }

  /** No space and no newline outside string literals, from place `p` on; the text ends at place `q`. */
  ghost predicate DenseFrom(p: Y.Place, s: bytes, q: Y.Place) {
    && (forall i :: 0 <= i < |s| && Y.Reach(p, s[..i]) == Y.Outside ==> s[i] != 32 && s[i] != 10)
    && Y.Reach(p, s) == q
  }

  lemma DenseJoin(p: Y.Place, a: bytes, q: Y.Place, b: bytes, r: Y.Place)
    requires DenseFrom(p, a, q) && DenseFrom(q, b, r)
    ensures DenseFrom(p, a + b, r)
  {
    hide Y.Reach;
    ReachJoin(p, a, b);
    var s := a + b;
    forall i | 0 <= i < |s| && Y.Reach(p, s[..i]) == Y.Outside
      ensures s[i] != 32 && s[i] != 10
    {
      if i < |a| {
        assert s[..i] == a[..i];
      } else {
        assert s[..i] == a + b[..i - |a|];
        ReachJoin(p, a, b[..i - |a|]);
      }
    }
  }

  lemma OneByte(p: Y.Place, b: byte)
    ensures Y.Reach(p, [b]) == Y.Step(p, b)
    ensures p != Y.Outside || (b != 32 && b != 10) ==> DenseFrom(p, [b], Y.Step(p, b))
    ensures DenseFrom(p, [], p)
  {
    assert [b][..0] == [];
  }

  /** Bytes that are no quotes and no white space. */
  lemma {:induction false} PlainDense(s: bytes)
    requires forall i :: 0 <= i < |s| ==> s[i] != 34 && s[i] != 32 && s[i] != 10
    ensures DenseFrom(Y.Outside, s, Y.Outside)
  {
    hide DenseFrom;
    OneByte(Y.Outside, 0);
    if s != [] {
      PlainDense(s[1..]);
      OneByte(Y.Outside, s[0]);
      DenseJoin(Y.Outside, [s[0]], Y.Outside, s[1..], Y.Outside);
      assert [s[0]] + s[1..] == s;
    }
  }

  /** Bytes of a literal that neither end it nor escape anything. */
  lemma {:induction false} InsideDense(s: bytes)
    requires forall i :: 0 <= i < |s| ==> s[i] != 34 && s[i] != 92
    ensures DenseFrom(Y.Inside, s, Y.Inside)
  {
    hide DenseFrom;
    OneByte(Y.Inside, 0);
    if s != [] {
      InsideDense(s[1..]);
      OneByte(Y.Inside, s[0]);
      DenseJoin(Y.Inside, [s[0]], Y.Inside, s[1..], Y.Inside);
      assert [s[0]] + s[1..] == s;
    }
  }

  lemma EscapedDense(c: byte, d: bytes)
    requires forall i :: 0 <= i < |d| ==> d[i] != 34 && d[i] != 92
    ensures DenseFrom(Y.Inside, [92, c] + d, Y.Inside)
  {
    hide DenseFrom;
    OneByte(Y.Inside, 92);
    OneByte(Y.Escaped, c);
    DenseJoin(Y.Inside, [92], Y.Escaped, [c], Y.Inside);
    InsideDense(d);
    DenseJoin(Y.Inside, [92] + [c], Y.Inside, d, Y.Inside);
    assert [92] + [c] == [92, c];
  }

  lemma CharDense(c: R.Char)
    requires R.FormedChar(c)
    ensures DenseFrom(Y.Inside, R.CharText(c), Y.Inside)
  {
    hide DenseFrom, R.HexNumber;
    match c
    case Raw(b) => InsideDense([b]);
    case Short(b) =>
      EscapedDense(b, []);
      assert [92, b] + [] == [92, b];
    case Hex(d) => EscapedDense(117, d);
    case Surrogates(high, low) =>
      EscapedDense(117, high);
      EscapedDense(117, low);
      DenseJoin(Y.Inside, [92, 117] + high, Y.Inside, [92, 117] + low, Y.Inside);
      assert [92, 117] + high + ([92, 117] + low) == R.CharText(c);
  }

  lemma {:induction false} CharsDense(cs: seq<R.Char>)
    requires R.FormedChars(cs)
    ensures DenseFrom(Y.Inside, R.CharsText(cs), Y.Inside)
  {
    hide DenseFrom, R.FormedChar, R.CharText;
    if cs == [] {
      OneByte(Y.Inside, 0);
    } else {
      CharDense(cs[0]);
      CharsDense(cs[1..]);
      DenseJoin(Y.Inside, R.CharText(cs[0]), Y.Inside, R.CharsText(cs[1..]), Y.Inside);
    }
  }

  lemma QuotedDense(cs: seq<R.Char>)
    requires R.FormedChars(cs)
    ensures DenseFrom(Y.Outside, R.QuotedText(cs), Y.Outside)
  {
    hide DenseFrom, R.CharsText, R.FormedChars;
    OneByte(Y.Outside, 34);
    OneByte(Y.Inside, 34);
    CharsDense(cs);
    DenseJoin(Y.Outside, [34], Y.Inside, R.CharsText(cs), Y.Inside);
    DenseJoin(Y.Outside, [34] + R.CharsText(cs), Y.Inside, [34], Y.Outside);
  }

  lemma NumberBytes(n: R.Number)
    requires R.FormedNumber(n)
    ensures forall i :: 0 <= i < |R.NumberText(n)| ==>
      var b := R.NumberText(n)[i]; 48 <= b <= 57 || b == 43 || b == 45 || b == 46 || b == 69 || b == 101
  {
    hide R.Whole;
  }

  lemma {:induction false} ValueDense(c: R.Syntax, d: nat)
    requires R.Formed(c, true) && Y.Laid(c, 0, true, d)
    ensures DenseFrom(Y.Outside, R.Text(c), Y.Outside)
    decreases c, 1
  {
    hide DenseFrom, R.NumberText, R.QuotedText, R.ElementsText, R.PropertiesText, R.FormedNumber, R.FormedChars;
    match c
    case Numeral(n) =>
      NumberBytes(n);
      PlainDense(R.NumberText(n));
    case Quoted(cs) => QuotedDense(cs);
    case List(_, es) =>
      ElementsDense(c, 0, d);
      assert es[0..] == es;
      Bracketed(91, if es == [] then [] else R.ElementsText(es), 93);
    case Record(_, ps) =>
      PropertiesDense(c, 0, d);
      assert ps[0..] == ps;
      Bracketed(123, if ps == [] then [] else R.PropertiesText(ps), 125);
    case _ => PlainDense(R.Text(c));
  }

  lemma Bracketed(open: byte, s: bytes, close: byte)
    requires open != 34 && open > 32 && close != 34 && close > 32
    requires DenseFrom(Y.Outside, s, Y.Outside) || s == []
    ensures DenseFrom(Y.Outside, [open] + s + [close], Y.Outside)
  {
    hide DenseFrom;
    OneByte(Y.Outside, open);
    OneByte(Y.Outside, close);
    DenseJoin(Y.Outside, [open], Y.Outside, s, Y.Outside);
    DenseJoin(Y.Outside, [open] + s, Y.Outside, [close], Y.Outside);
  }

  lemma {:induction false} ElementsDense(c: R.Syntax, k: nat, d: nat)
    requires c.List? && R.Formed(c, true) && Y.Laid(c, 0, true, d) && k <= |c.elements|
    ensures DenseFrom(Y.Outside, R.ElementsText(c.elements[k..]), Y.Outside)
    decreases c, 0, |c.elements| - k
  {
    hide DenseFrom, R.Text, R.FormedNumber, R.FormedChars;
    var es := c.elements;
    if k == |es| {
      OneByte(Y.Outside, 0);
    } else {
      ValueDense(es[k].value, d + 1);
      ElementsDense(c, k + 1, d);
      assert es[k..][1..] == es[k + 1..];
      JsonDerivation.FirstElement(es[k..]);
      var v, tail := R.Text(es[k].value), R.ElementsText(es[k + 1..]);
      assert es[k].before == [] && es[k].after == [];
      assert R.ElementsText(es[k..]) == v + if |es[k..]| == 1 then [] else [COMMA] + tail;
      hide R.ElementsText;
      Continued(v, |es[k..]| == 1, tail);
    }
  }

  lemma Continued(v: bytes, last: bool, tail: bytes)
    requires DenseFrom(Y.Outside, v, Y.Outside) && DenseFrom(Y.Outside, tail, Y.Outside)
    ensures DenseFrom(Y.Outside, v + if last then [] else [COMMA] + tail, Y.Outside)
  {
    hide DenseFrom;
    OneByte(Y.Outside, COMMA);
    DenseJoin(Y.Outside, [COMMA], Y.Outside, tail, Y.Outside);
    DenseJoin(Y.Outside, v, Y.Outside, [COMMA] + tail, Y.Outside);
    assert v + [] == v;
  }

  lemma {:induction false} PropertiesDense(c: R.Syntax, k: nat, d: nat)
    requires c.Record? && R.Formed(c, true) && Y.Laid(c, 0, true, d) && k <= |c.properties|
    ensures DenseFrom(Y.Outside, R.PropertiesText(c.properties[k..]), Y.Outside)
    decreases c, 0, |c.properties| - k
  {
    hide DenseFrom, R.Text, R.QuotedText, R.FormedChars;
    var ps := c.properties;
    if k == |ps| {
      OneByte(Y.Outside, 0);
    } else {
      var p := ps[k];
      ValueDense(p.value, d + 1);
      PropertiesDense(c, k + 1, d);
      assert ps[k..][1..] == ps[k + 1..];
      JsonDerivation.FirstProperty(ps[k..]);
      QuotedDense(p.key);
      var q, v, tail := R.QuotedText(p.key), R.Text(p.value), R.PropertiesText(ps[k + 1..]);
      assert p.before == [] && p.beforeColon == [] && p.afterColon == [] && p.after == [];
      assert [] + q + [] + [COLON] + [] + v + [] == q + [COLON] + v;
      hide R.PropertiesText;
      OneByte(Y.Outside, COLON);
      DenseJoin(Y.Outside, q, Y.Outside, [COLON], Y.Outside);
      DenseJoin(Y.Outside, q + [COLON], Y.Outside, v, Y.Outside);
      Continued(q + [COLON] + v, |ps[k..]| == 1, tail);
    }
  }

  /** JSON_COMPACT without JSON_INDENT */
  lemma CompactDump(t: Tree, flags: Flags)
    requires JsonRoundTrip.Speakable(t) && WellKeyed(t) && flags.compact && flags.indent == 0
    ensures Y.Dense(Dump(t, flags))
  {
    hide Dump, R.Formed, Y.Styled, Y.Laid, Y.Writes;
    var c := DumpShape(t, flags);
    ValueDense(c, 0);
  }

  // ---- the bytes: INDENT ----

  /** Byte `a` of the text is outside string literals and inside `d` containers. */
  ghost predicate At(s: bytes, a: nat, d: int) {
    a <= |s| && Y.Reach(Y.Outside, s[..a]) == Y.Outside && Y.Depth(s[..a]) == d
  }

  /** The bytes from `a` to `b` are broken into lines. */
  ghost predicate Good(s: bytes, n: nat, a: nat, b: nat) {
    a <= b <= |s| && forall i :: a <= i < b && Y.Reach(Y.Outside, s[..i]) == Y.Outside ==> Y.LineAt(s, n, i)
  }

  lemma GoodJoin(s: bytes, n: nat, a: nat, b: nat, c: nat)
    requires Good(s, n, a, b) && Good(s, n, b, c)
    ensures Good(s, n, a, c)
  {
    hide Y.Reach, Y.LineAt;
  }

  lemma OneOn(s: bytes, a: nat)
    requires a < |s|
    ensures Y.Reach(Y.Outside, s[..a + 1]) == Y.Step(Y.Reach(Y.Outside, s[..a]), s[a])
    ensures Y.Depth(s[..a + 1]) == Y.Depth(s[..a]) +
      if Y.Reach(Y.Outside, s[..a]) != Y.Outside then 0 else if s[a] == 91 || s[a] == 123 then 1
      else if s[a] == 93 || s[a] == 125 then -1 else 0
  {
    assert s[..a + 1][..a] == s[..a];
  }

  /** One byte outside literals that stands right. */
  lemma ByteLines(s: bytes, n: nat, a: nat, d: int)
    requires a < |s| && At(s, a, d) && s[a] != 34 && Y.LineAt(s, n, a)
    ensures Good(s, n, a, a + 1)
    ensures At(s, a + 1, if s[a] == 91 || s[a] == 123 then d + 1 else if s[a] == 93 || s[a] == 125 then d - 1 else d)
  {
    hide Y.Reach, Y.Depth, Y.LineAt;
    OneOn(s, a);
  }

  lemma {:induction false} PlainLines(s: bytes, n: nat, a: nat, b: nat, d: int)
    requires a <= b <= |s| && At(s, a, d)
    requires forall i :: a <= i < b ==> s[i] !in [10, 34, 44, 91, 93, 123, 125]
    ensures Good(s, n, a, b) && At(s, b, d)
    decreases b - a
  {
    hide Y.Reach, Y.Depth;
    if a < b {
      assert s[a] !in [10, 34, 44, 91, 93, 123, 125];
      ByteLines(s, n, a, d);
      PlainLines(s, n, a + 1, b, d);
      GoodJoin(s, n, a, a + 1, b);
    }
  }

  lemma {:induction false} SpacesAre(s: bytes, a: nat, b: nat)
    requires a <= b < |s| && s[b] != 32 && forall i :: a <= i < b ==> s[i] == 32
    ensures Y.Spaces(s[a..]) == b - a
    decreases b - a
  {
    if a < b {
      SpacesAre(s, a + 1, b);
      assert s[a..][1..] == s[a + 1..] && s[a..][0] == s[a];
    } else {
      assert s[a..][0] == s[b];
    }
  }

  /** A newline and the indentation of the line it starts. */
  lemma LineLines(s: bytes, n: nat, a: nat, b: nat, e: nat, d: int)
    requires a < b < |s| && At(s, a, d) && Y.IsLine(s[a..b], n, e) && s[b] != 32
    requires e == if s[b] == 93 || s[b] == 125 then d - 1 else d
    ensures Good(s, n, a, b) && At(s, b, d) && (s[b - 1] == 10 || s[b - 1] == 32)
  {
    hide Y.Reach, Y.Depth;
    var line := s[a..b];
    assert forall i :: a < i < b ==> s[i] == line[i - a];
    assert s[a] == line[0];
    SpacesAre(s, a + 1, b);
    ByteLines(s, n, a, d);
    PlainLines(s, n, a + 1, b, d);
    GoodJoin(s, n, a, a + 1, b);
  }

  /** Inside a string literal there is nothing to see. */
  ghost predicate Shut(p: Y.Place, s: bytes) {
    forall i :: 0 <= i < |s| ==> Y.Reach(p, s[..i]) != Y.Outside
  }

  lemma ShutJoin(p: Y.Place, a: bytes, b: bytes)
    requires Shut(p, a) && Shut(Y.Reach(p, a), b)
    ensures Shut(p, a + b)
  {
    hide Y.Reach;
    var s := a + b;
    forall i | 0 <= i < |s|
      ensures Y.Reach(p, s[..i]) != Y.Outside
    {
      if i < |a| {
        assert s[..i] == a[..i];
      } else {
        assert s[..i] == a + b[..i - |a|];
        ReachJoin(p, a, b[..i - |a|]);
      }
    }
  }

  lemma OneShut(p: Y.Place, b: byte)
    ensures p != Y.Outside ==> Shut(p, [b])
    ensures Shut(p, []) && Y.Reach(p, [b]) == Y.Step(p, b) && Y.Reach(p, []) == p
  {
    assert [b][..0] == [];
  }

  lemma {:induction false} InsideShut(s: bytes)
    requires forall i :: 0 <= i < |s| ==> s[i] != 34 && s[i] != 92
    ensures Shut(Y.Inside, s) && Y.Reach(Y.Inside, s) == Y.Inside
  {
    hide Shut;
    OneShut(Y.Inside, 0);
    if s != [] {
      InsideShut(s[1..]);
      OneShut(Y.Inside, s[0]);
      ShutJoin(Y.Inside, [s[0]], s[1..]);
      ReachJoin(Y.Inside, [s[0]], s[1..]);
      assert [s[0]] + s[1..] == s;
    }
  }

  lemma EscapedShut(c: byte, d: bytes)
    requires forall i :: 0 <= i < |d| ==> d[i] != 34 && d[i] != 92
    ensures Shut(Y.Inside, [92, c] + d) && Y.Reach(Y.Inside, [92, c] + d) == Y.Inside
  {
    hide Shut, Y.Reach;
    OneShut(Y.Inside, 92);
    OneShut(Y.Escaped, c);
    ShutJoin(Y.Inside, [92], [c]);
    ReachJoin(Y.Inside, [92], [c]);
    InsideShut(d);
    assert [92] + [c] == [92, c];
    ShutJoin(Y.Inside, [92, c], d);
    ReachJoin(Y.Inside, [92, c], d);
  }

  lemma CharShut(c: R.Char)
    requires R.FormedChar(c)
    ensures Shut(Y.Inside, R.CharText(c)) && Y.Reach(Y.Inside, R.CharText(c)) == Y.Inside
  {
    hide Shut, R.HexNumber, Y.Reach;
    match c
    case Raw(b) => InsideShut([b]);
    case Short(b) =>
      EscapedShut(b, []);
      assert [92, b] + [] == [92, b];
    case Hex(d) => EscapedShut(117, d);
    case Surrogates(high, low) =>
      EscapedShut(117, high);
      EscapedShut(117, low);
      ShutJoin(Y.Inside, [92, 117] + high, [92, 117] + low);
      ReachJoin(Y.Inside, [92, 117] + high, [92, 117] + low);
      assert [92, 117] + high + ([92, 117] + low) == R.CharText(c);
  }

  lemma {:induction false} CharsShut(cs: seq<R.Char>)
    requires R.FormedChars(cs)
    ensures Shut(Y.Inside, R.CharsText(cs)) && Y.Reach(Y.Inside, R.CharsText(cs)) == Y.Inside
  {
    hide Shut, R.FormedChar, R.CharText, Y.Reach;
    if cs == [] {
      OneShut(Y.Inside, 0);
    } else {
      CharShut(cs[0]);
      CharsShut(cs[1..]);
      ShutJoin(Y.Inside, R.CharText(cs[0]), R.CharsText(cs[1..]));
      ReachJoin(Y.Inside, R.CharText(cs[0]), R.CharsText(cs[1..]));
    }
  }

  lemma {:induction false} ShutLines(s: bytes, n: nat, a: nat, b: nat, p: Y.Place)
    requires a <= b <= |s| && Y.Reach(Y.Outside, s[..a]) == p && Shut(p, s[a..b])
    ensures Good(s, n, a, b) && Y.Depth(s[..b]) == Y.Depth(s[..a]) && Y.Reach(Y.Outside, s[..b]) == Y.Reach(p, s[a..b])
    decreases b - a
  {
    hide Y.LineAt;
    if a < b {
      var q := b - 1;
      assert s[a..b][..q - a] == s[a..q];
      assert Shut(p, s[a..q]) by {
        assert forall i :: 0 <= i < q - a ==> s[a..q][..i] == s[a..b][..i];
      }
      ShutLines(s, n, a, q, p);
      OneOn(s, q);
      assert Y.Reach(p, s[a..b][..q - a]) != Y.Outside;
      hide Shut;
    } else {
      assert s[a..b] == [];
    }
  }

  lemma QuotedLines(s: bytes, n: nat, a: nat, b: nat, d: int, cs: seq<R.Char>)
    requires a <= b <= |s| && At(s, a, d) && s[a..b] == R.QuotedText(cs) && R.FormedChars(cs)
    ensures Good(s, n, a, b) && At(s, b, d)
  {
    hide Shut, Y.Reach, Y.Depth, R.CharsText, R.FormedChars;
    var e := R.CharsText(cs);
    assert s[a] == s[a..b][0] == 34 && s[b - 1] == s[a..b][b - a - 1] == 34;
    Slice(s, a, b, 1, b - a - 1);
    assert ([34] + e + [34])[1..b - a - 1] == e;
    OneOn(s, a);
    CharsShut(cs);
    ShutLines(s, n, a + 1, b - 1, Y.Inside);
    OneOn(s, b - 1);
    QuoteGood(s, n, a, b);
  }

  lemma QuoteGood(s: bytes, n: nat, a: nat, b: nat)
    requires a + 1 <= b - 1 < b <= |s| && Good(s, n, a + 1, b - 1) && s[a] == 34 && s[b - 1] == 34
    ensures Good(s, n, a, b)
  {
    hide Y.Reach, Y.Depth, Y.Spaces;
    forall i | a <= i < b && Y.Reach(Y.Outside, s[..i]) == Y.Outside
      ensures Y.LineAt(s, n, i)
    {
      if a < i < b - 1 {
        assert a + 1 <= i < b - 1;
      }
    }
  }

  lemma Slice(s: bytes, a: nat, b: nat, i: nat, j: nat)
    requires a <= b <= |s| && i <= j <= b - a
    ensures s[a..b][i..j] == s[a + i..a + j]
  {
    var x, y := s[a..b][i..j], s[a + i..a + j];
    assert forall k :: 0 <= k < |x| ==> x[k] == s[a..b][i + k] == s[a + i + k] == y[k];
  }

  /** Where the last part of a text starts. */
  lemma Last(s: bytes, a: nat, b: nat, x: bytes, y: bytes) returns (m: nat)
    requires a <= b <= |s| && s[a..b] == x + y
    ensures a <= m <= b && m == a + |x| && b == m + |y| && s[a..m] == x && s[m..b] == y
  {
    m := a + |x|;
    var w := s[a..b];
    assert w[..|x|] == x && w[|x|..] == y;
    Slice(s, a, b, 0, |x|);
    Slice(s, a, b, |x|, b - a);
  }

  lemma TextHead(c: R.Syntax)
    requires R.Formed(c, true)
    ensures R.Text(c) != [] && R.Text(c)[0] !in [10, 32, 93, 125]
  {
    hide R.ElementsText, R.PropertiesText, R.CharsText, R.Whole;
  }

  lemma {:induction false} ValueLines(s: bytes, n: nat, a: nat, b: nat, c: R.Syntax, compact: bool, d: nat)
    requires n > 0 && a <= b <= |s| && s[a..b] == R.Text(c) && At(s, a, d)
    requires R.Formed(c, true) && Y.Laid(c, n, compact, d)
    ensures Good(s, n, a, b) && At(s, b, d)
    decreases c, 1
  {
    match c
    case List(_, _) => ContainerLines(s, n, a, b, c, compact, d);
    case Record(_, _) => ContainerLines(s, n, a, b, c, compact, d);
    case _ => LeafLines(s, n, a, b, c, d);
  }

  lemma LeafLines(s: bytes, n: nat, a: nat, b: nat, c: R.Syntax, d: nat)
    requires a <= b <= |s| && s[a..b] == R.Text(c) && At(s, a, d) && R.Formed(c, true) && !c.List? && !c.Record?
    ensures Good(s, n, a, b) && At(s, b, d)
  {
    hide Good, At, R.NumberText, R.QuotedText, R.FormedNumber, R.FormedChars;
    if c.Quoted? {
      QuotedLines(s, n, a, b, d, c.chars);
    } else {
      if c.Numeral? {
        NumberBytes(c.n);
      }
      assert forall i :: a <= i < b ==> s[i] == s[a..b][i - a];
      PlainLines(s, n, a, b, d);
    }
  }

  lemma {:induction false} ContainerLines(s: bytes, n: nat, a: nat, b: nat, c: R.Syntax, compact: bool, d: nat)
    requires n > 0 && a <= b <= |s| && s[a..b] == R.Text(c) && At(s, a, d) && (c.List? || c.Record?)
    requires R.Formed(c, true) && Y.Laid(c, n, compact, d)
    ensures Good(s, n, a, b) && At(s, b, d)
    decreases c, 0
  {
    hide Good, At, R.ElementsText, R.PropertiesText, R.Formed, Y.Laid;
    var empty := if c.List? then c.elements == [] else c.properties == [];
    var inner := if c.List? then R.ElementsText(c.elements) else R.PropertiesText(c.properties);
    Bounds(s, a, b, c, n, compact, d);
    if empty {
      OpenLines(s, n, a, d);
      CloseLines(s, n, a + 1, d);
      GoodJoin(s, n, a, a + 1, b);
    } else {
      OpenLines(s, n, a, d);
      if c.List? {
        assert c.elements[0..] == c.elements;
        ElementsLines(s, n, a + 1, b - 1, c, compact, d, 0);
      } else {
        assert c.properties[0..] == c.properties;
        PropertiesLines(s, n, a + 1, b - 1, c, compact, d, 0);
      }
      CloseLines(s, n, b - 1, d);
      GoodJoin(s, n, a, a + 1, b - 1);
      GoodJoin(s, n, a, b - 1, b);
    }
  }

  /** The brackets of a container and what is between them. */
  lemma Bounds(s: bytes, a: nat, b: nat, c: R.Syntax, n: nat, compact: bool, d: nat)
    requires n > 0 && a <= b <= |s| && s[a..b] == R.Text(c) && (c.List? || c.Record?)
    requires R.Formed(c, true) && Y.Laid(c, n, compact, d)
    ensures a + 1 < b && s[a] == (if c.List? then 91 else 123) && s[b - 1] == s[a] + 2
    ensures c.List? && c.elements == [] ==> b == a + 2
    ensures c.List? && c.elements != [] ==> s[a + 1..b - 1] == R.ElementsText(c.elements) && s[a + 1] == 10 && b > a + 2
    ensures c.Record? && c.properties == [] ==> b == a + 2
    ensures c.Record? && c.properties != [] ==>
      s[a + 1..b - 1] == R.PropertiesText(c.properties) && s[a + 1] == 10 && b > a + 2
  {
    hide R.ElementsText, R.PropertiesText, R.Formed, R.Text, Y.Laid;
    BetweenBrackets(c);
    Slice(s, a, b, 1, b - a - 1);
    NothingBetween(c, n, compact, d);
    assert s[a] == s[a..b][0] && s[b - 1] == s[a..b][b - a - 1];
    if c.List? && c.elements != [] {
      assert c.elements[0..] == c.elements;
      NextElement(c.elements, 0, n, compact, d, c);
      assert s[a + 1] == s[a + 1..b - 1][0];
    }
    if c.Record? && c.properties != [] {
      assert c.properties[0..] == c.properties;
      NextProperty(c.properties, 0, n, compact, d, c);
      assert s[a + 1] == s[a + 1..b - 1][0];
    }
  }

  lemma NothingBetween(c: R.Syntax, n: nat, compact: bool, d: nat)
    requires Y.Laid(c, n, compact, d)
    ensures c.List? ==> c.blank == []
    ensures c.Record? ==> c.blank == []
  {
  }

  lemma BetweenBrackets(c: R.Syntax)
    requires c.List? || c.Record?
    ensures var w := R.Text(c);
      && |w| >= 2 && w[0] == (if c.List? then 91 else 123) && w[|w| - 1] == w[0] + 2
      && w[1..|w| - 1] ==
        if c.List? then (if c.elements == [] then c.blank else R.ElementsText(c.elements))
        else if c.properties == [] then c.blank else R.PropertiesText(c.properties)
  {
    hide R.ElementsText, R.PropertiesText;
  }

  lemma OpenLines(s: bytes, n: nat, a: nat, d: int)
    requires a + 1 < |s| && At(s, a, d) && (s[a] == 91 || s[a] == 123) && (s[a + 1] == 10 || s[a + 1] == s[a] + 2)
    ensures Good(s, n, a, a + 1) && At(s, a + 1, d + 1)
  {
    hide Good, At, Y.Depth;
    ByteLines(s, n, a, d);
  }

  lemma CloseLines(s: bytes, n: nat, a: nat, d: int)
    requires 0 < a < |s| && At(s, a, d + 1) && (s[a] == 93 || s[a] == 125)
    requires s[a - 1] == 10 || s[a - 1] == 32 || s[a - 1] == s[a] - 2
    ensures Good(s, n, a, a + 1) && At(s, a + 1, d)
  {
    hide Good, At, Y.Depth;
    ByteLines(s, n, a, d + 1);
  }

  /** From a value to the next entry, or to the closing bracket. */
  lemma EntryEnd(s: bytes, n: nat, a: nat, after: bytes, last: bool, d: nat)
    requires n > 0 && Y.Trailing(after, last, n, d) && At(s, a, d + 1) && a + |after| < |s|
    requires s[a..a + |after|] == after
    requires if last then s[a + |after|] == 93 || s[a + |after|] == 125
             else s[a + |after|] == 44 && a + 1 < |s| && s[a + 1] == 10
    ensures last ==> |after| > 0 && Good(s, n, a, a + |after|) && At(s, a + |after|, d + 1)
    ensures last ==> s[a + |after| - 1] == 10 || s[a + |after| - 1] == 32
    ensures !last ==> after == [] && Good(s, n, a, a + 1) && At(s, a + 1, d + 1)
  {
    hide Good, At, Y.Depth;
    if last {
      LineLines(s, n, a, a + |after|, d, d + 1);
    } else {
      ByteLines(s, n, a, d + 1);
    }
  }

  /** The indentation of an entry. */
  lemma EntryStart(s: bytes, n: nat, a: nat, before: bytes, i: nat, compact: bool, d: nat)
    requires n > 0 && Y.Leading(before, i, n, compact, d) && At(s, a, d + 1) && a + |before| < |s|
    requires s[a..a + |before|] == before && s[a + |before|] !in [10, 32, 93, 125]
    ensures Good(s, n, a, a + |before|) && At(s, a + |before|, d + 1)
  {
    hide Good, At;
    LineLines(s, n, a, a + |before|, d + 1, d + 1);
  }

  lemma {:induction false} ElementsLines(
      s: bytes, n: nat, a: nat, b: nat, c: R.Syntax, compact: bool, d: nat, k: nat)
    requires n > 0 && c.List? && R.Formed(c, true) && Y.Laid(c, n, compact, d) && k < |c.elements|
    requires a <= b < |s| && s[a..b] == R.ElementsText(c.elements[k..]) && s[b] == 93 && At(s, a, d + 1)
    ensures Good(s, n, a, b) && At(s, b, d + 1) && b > 0 && (s[b - 1] == 10 || s[b - 1] == 32)
    decreases c, 0, |c.elements| - k
  {
    hide *;
    var es := c.elements;
    var e := es[k];
    ElementLaid(c, n, compact, d, k);
    TextHead(e.value);
    var p, q, r := ElementParts(s, a, b, es, k);
    EntryStart(s, n, a, e.before, k, compact, d);
    ValueLines(s, n, p, q, e.value, compact, d + 1);
    GoodJoin(s, n, a, p, q);
    if k == |es| - 1 {
      EntryEnd(s, n, q, e.after, true, d);
      GoodJoin(s, n, a, q, b);
    } else {
      NextElement(es, k + 1, n, compact, d, c);
      NotTrailing(e.after, n, d);
      EntryEnd(s, n, q, e.after, false, d);
      ElementsLines(s, n, r + 1, b, c, compact, d, k + 1);
      GoodJoin(s, n, a, q, r + 1);
      GoodJoin(s, n, a, r + 1, b);
    }
  }

  lemma ElementLaid(c: R.Syntax, n: nat, compact: bool, d: nat, k: nat)
    requires c.List? && R.Formed(c, true) && Y.Laid(c, n, compact, d) && k < |c.elements|
    ensures var e := c.elements[k];
      && R.Formed(e.value, true) && Y.Laid(e.value, n, compact, d + 1)
      && Y.Leading(e.before, k, n, compact, d) && Y.Trailing(e.after, k == |c.elements| - 1, n, d)
  {
    hide Y.Leading, Y.Trailing;
  }

  lemma PropertyLaid(c: R.Syntax, n: nat, compact: bool, d: nat, k: nat)
    requires c.Record? && R.Formed(c, true) && Y.Laid(c, n, compact, d) && k < |c.properties|
    ensures var e := c.properties[k];
      && R.Formed(e.value, true) && Y.Laid(e.value, n, compact, d + 1) && R.FormedChars(e.key)
      && Y.Leading(e.before, k, n, compact, d) && Y.Trailing(e.after, k == |c.properties| - 1, n, d)
      && e.beforeColon == [] && (e.afterColon == [] || e.afterColon == [32])
  {
    hide Y.Leading, Y.Trailing, R.FormedChars;
  }

  lemma ColonLines(s: bytes, n: nat, a: nat, b: nat, d: int, blank: bytes)
    requires a <= b <= |s| && s[a..b] == [COLON] + blank && (blank == [] || blank == [32]) && At(s, a, d)
    ensures Good(s, n, a, b) && At(s, b, d)
  {
    hide Good, At;
    assert forall i :: a <= i < b ==> s[i] == s[a..b][i - a];
    PlainLines(s, n, a, b, d);
  }

  lemma NotTrailing(after: bytes, n: nat, d: nat)
    requires Y.Trailing(after, false, n, d)
    ensures after == []
  {
  }

  /** Where the parts of an element stand. */
  lemma ElementParts(s: bytes, a: nat, b: nat, es: seq<R.Element>, k: nat) returns (p: nat, q: nat, r: nat)
    requires k < |es| && a <= b <= |s| && s[a..b] == R.ElementsText(es[k..]) && R.Text(es[k].value) != []
    ensures a <= p < q <= r <= b && p == a + |es[k].before| && r == q + |es[k].after|
    ensures s[a..p] == es[k].before && s[p..q] == R.Text(es[k].value) && s[q..r] == es[k].after
    ensures s[p] == R.Text(es[k].value)[0]
    ensures k == |es| - 1 ==> r == b
    ensures k < |es| - 1 ==> r < b && s[r] == 44 && s[r + 1..b] == R.ElementsText(es[k + 1..])
    ensures k < |es| - 1 && R.ElementsText(es[k + 1..]) != [] ==>
      r + 1 < b && s[r + 1] == R.ElementsText(es[k + 1..])[0]
  {
    hide *;
    var e, v, last := es[k], R.Text(es[k].value), k == |es| - 1;
    var rest := if last then [] else [COMMA] + R.ElementsText(es[k + 1..]);
    ElementText(es, k);
    r := Last(s, a, b, e.before + v + e.after, rest);
    q := Last(s, a, r, e.before + v, e.after);
    p := Last(s, a, q, e.before, v);
    assert s[p] == s[p..q][0];
    if !last {
      AfterComma(s, r, b, R.ElementsText(es[k + 1..]));
    }
  }

  lemma ElementText(es: seq<R.Element>, k: nat)
    requires k < |es|
    ensures R.ElementsText(es[k..]) == es[k].before + R.Text(es[k].value) + es[k].after
      + if k == |es| - 1 then [] else [COMMA] + R.ElementsText(es[k + 1..])
  {
    hide R.Text, R.ElementsText;
    assert es[k..][1..] == es[k + 1..];
    JsonDerivation.FirstElement(es[k..]);
  }

  lemma AfterComma(s: bytes, r: nat, b: nat, tail: bytes)
    requires r <= b <= |s| && s[r..b] == [COMMA] + tail
    ensures r < b && s[r] == 44 && s[r + 1..b] == tail && (tail != [] ==> r + 1 < b && s[r + 1] == tail[0])
  {
    assert s[r] == s[r..b][0];
    Slice(s, r, b, 1, b - r);
    assert tail != [] ==> s[r + 1] == s[r..b][1];
  }

  lemma NextElement(es: seq<R.Element>, k: nat, n: nat, compact: bool, d: nat, c: R.Syntax)
    requires n > 0 && k < |es| && c.List? && es == c.elements && Y.Laid(c, n, compact, d)
    ensures R.ElementsText(es[k..]) != [] && R.ElementsText(es[k..])[0] == 10
  {
    hide R.Text, R.ElementsText;
    JsonDerivation.FirstElement(es[k..]);
    assert Y.Leading(es[k].before, k, n, compact, d);
    assert R.ElementsText(es[k..])[0] == es[k].before[0];
  }

  lemma {:induction false} PropertiesLines(
      s: bytes, n: nat, a: nat, b: nat, c: R.Syntax, compact: bool, d: nat, k: nat)
    requires n > 0 && c.Record? && R.Formed(c, true) && Y.Laid(c, n, compact, d) && k < |c.properties|
    requires a <= b < |s| && s[a..b] == R.PropertiesText(c.properties[k..]) && s[b] == 125 && At(s, a, d + 1)
    ensures Good(s, n, a, b) && At(s, b, d + 1) && b > 0 && (s[b - 1] == 10 || s[b - 1] == 32)
    decreases c, 0, |c.properties| - k
  {
    hide *;
    var ps := c.properties;
    var e := ps[k];
    PropertyLaid(c, n, compact, d, k);
    var p, j, m, q, r := PropertyParts(s, a, b, ps, k);
    EntryStart(s, n, a, e.before, k, compact, d);
    QuotedLines(s, n, p, j, d + 1, e.key);
    ColonLines(s, n, j, m, d + 1, e.afterColon);
    ValueLines(s, n, m, q, e.value, compact, d + 1);
    GoodJoin(s, n, a, p, j);
    GoodJoin(s, n, a, j, m);
    GoodJoin(s, n, a, m, q);
    if k == |ps| - 1 {
      EntryEnd(s, n, q, e.after, true, d);
      GoodJoin(s, n, a, q, b);
    } else {
      NextProperty(ps, k + 1, n, compact, d, c);
      NotTrailing(e.after, n, d);
      EntryEnd(s, n, q, e.after, false, d);
      PropertiesLines(s, n, r + 1, b, c, compact, d, k + 1);
      GoodJoin(s, n, a, q, r + 1);
      GoodJoin(s, n, a, r + 1, b);
    }
  }

  /** Where the parts of a member stand. */
  lemma PropertyParts(s: bytes, a: nat, b: nat, ps: seq<R.Property>, k: nat)
      returns (p: nat, j: nat, m: nat, q: nat, r: nat)
    requires k < |ps| && a <= b <= |s| && s[a..b] == R.PropertiesText(ps[k..]) && ps[k].beforeColon == []
    ensures a <= p < j <= m <= q <= r <= b && p == a + |ps[k].before| && r == q + |ps[k].after|
    ensures s[a..p] == ps[k].before && s[p..j] == R.QuotedText(ps[k].key) && s[p] == 34
    ensures s[j..m] == [COLON] + ps[k].afterColon && s[m..q] == R.Text(ps[k].value) && s[q..r] == ps[k].after
    ensures k == |ps| - 1 ==> r == b
    ensures k < |ps| - 1 ==> r < b && s[r] == 44 && s[r + 1..b] == R.PropertiesText(ps[k + 1..])
    ensures k < |ps| - 1 && R.PropertiesText(ps[k + 1..]) != [] ==>
      r + 1 < b && s[r + 1] == R.PropertiesText(ps[k + 1..])[0]
  {
    hide *;
    var e, last := ps[k], k == |ps| - 1;
    var key, v, colon := R.QuotedText(e.key), R.Text(e.value), [COLON] + e.afterColon;
    var rest := if last then [] else [COMMA] + R.PropertiesText(ps[k + 1..]);
    PropertyText(ps, k);
    r := Last(s, a, b, e.before + key + colon + v + e.after, rest);
    q := Last(s, a, r, e.before + key + colon + v, e.after);
    m := Last(s, a, q, e.before + key + colon, v);
    j := Last(s, a, m, e.before + key, colon);
    p := Last(s, a, j, e.before, key);
    QuotedHead(e.key);
    assert s[p] == s[p..j][0];
    if !last {
      AfterComma(s, r, b, R.PropertiesText(ps[k + 1..]));
    }
  }

  lemma PropertyText(ps: seq<R.Property>, k: nat)
    requires k < |ps| && ps[k].beforeColon == []
    ensures var e := ps[k];
      R.PropertiesText(ps[k..]) ==
        e.before + R.QuotedText(e.key) + ([COLON] + e.afterColon) + R.Text(e.value) + e.after
        + if k == |ps| - 1 then [] else [COMMA] + R.PropertiesText(ps[k + 1..])
  {
    hide R.Text, R.PropertiesText, R.QuotedText;
    assert ps[k..][1..] == ps[k + 1..];
    JsonDerivation.FirstProperty(ps[k..]);
    NoBlankBefore(ps[k].before + R.QuotedText(ps[k].key), ps[k].afterColon);
  }

  lemma NoBlankBefore(a: bytes, c: bytes)
    ensures a + [] + [COLON] + c == a + ([COLON] + c)
  {
    assert a + [] == a;
  }

  lemma QuotedHead(cs: seq<R.Char>)
    ensures R.QuotedText(cs) != [] && R.QuotedText(cs)[0] == 34
  {
    hide R.CharsText;
  }

  lemma NextProperty(ps: seq<R.Property>, k: nat, n: nat, compact: bool, d: nat, c: R.Syntax)
    requires n > 0 && k < |ps| && c.Record? && ps == c.properties && Y.Laid(c, n, compact, d)
    ensures R.PropertiesText(ps[k..]) != [] && R.PropertiesText(ps[k..])[0] == 10
  {
    hide R.Text, R.PropertiesText, R.QuotedText;
    JsonDerivation.FirstProperty(ps[k..]);
    assert Y.Leading(ps[k].before, k, n, compact, d);
    assert R.PropertiesText(ps[k..])[0] == ps[k].before[0];
  }

  /** JSON_INDENT */
  lemma IndentedDump(t: Tree, flags: Flags)
    requires JsonRoundTrip.Speakable(t) && WellKeyed(t) && flags.indent > 0
    ensures Y.InLines(Dump(t, flags), flags.indent)
  {
    hide Dump, R.Formed, Y.Styled, Y.Laid, Y.Writes, Y.LineAt;
    var c := DumpShape(t, flags);
    var s := Dump(t, flags);
    assert s[0..|s|] == s && s[..0] == [];
    ValueLines(s, flags.indent, 0, |s|, c, flags.compact, 0);
  }
}
