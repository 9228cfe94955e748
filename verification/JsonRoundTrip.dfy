/**
 * Loading what was dumped gives an equal value, for every flag combination (the grammar is section 2 of
 * RFC 4627). The proof follows the printer: a text for a value, behind it anything that cannot extend it.
 */
module JsonRoundTrip {
  import opened Bytes
  import opened JsonValue
  import opened JsonOrder
  import opened JsonPrint
  import opened JsonGrammar
  import opened StringCodec
  import Utf8

  /** What a value reachable by the API with checked strings looks like (reals are not modelled). */
  predicate Speakable(t: Tree) {
    match t
    case Integer(i) => INT_MIN <= i <= INT_MAX
    case Text(s) => IsCString(s)
    case Array(items) => forall i :: 0 <= i < |items| ==> Speakable(items[i])
    case Object(ms) => forall i :: 0 <= i < |ms| ==> IsCString(ms[i].key) && Speakable(ms[i].value)
    case _ => true
  }

  predicate IsCString(s: bytes) {
    Utf8.Valid(s) && NulFree(s)
  }

  /** Text that cannot continue a number or a word. */
  predicate Follows(k: bytes) {
    k == [] || !(IsDigit(k[0]) || IsAlpha(k[0]) || k[0] == POINT)
  }

  predicate Blank(g: bytes) {
    forall i :: 0 <= i < |g| ==> IsSpace(g[i])
  }

  lemma {:induction false} LexSkipsBlank(g: bytes, s: bytes, broken: bool)
    requires Blank(g)
    ensures Lex(g + s, broken) == Lex(s, broken)
  {
    if g == [] {
      assert g + s == s;
    } else {
      LexSkipsBlank(g[1..], s, broken);
      assert (g + s)[1..] == g[1..] + s;
    }
  }

  lemma SpacesBlank(n: nat)
    ensures Blank(Spaces(n))
  {
  }

  lemma MarginBlank(w: width, depth: nat)
    ensures Blank(Margin(w, depth))
  {
    if depth > 0 {
      SpacesBlank(w);
    }
  }

  lemma GapBlank(flags: Flags, depth: nat, space: bool)
    ensures Blank(Gap(flags, depth, space))
  {
    MarginBlank(flags.indent, depth);
  }

  // ---- integers ----

  lemma {:induction false} PrintNatDigits(n: nat)
    ensures forall i :: 0 <= i < |PrintNat(n)| ==> IsDigit(PrintNat(n)[i])
    ensures NatValue(PrintNat(n)) == n
    ensures PrintNat(n)[0] == 48 ==> n == 0 && |PrintNat(n)| == 1
  {
    if n >= 10 {
      PrintNatDigits(n / 10);
      var r := PrintNat(n);
      assert r[..|r| - 1] == PrintNat(n / 10);
    } else {
      var r := PrintNat(n);
      assert r == [48 + n] && r[..0] == [];
      assert NatValue(r) == NatValue(r[..0]) * 10 + n;
    }
  }

  lemma {:induction false} DigitRunOf(d: bytes, k: bytes)
    requires forall i :: 0 <= i < |d| ==> IsDigit(d[i])
    requires k != [] ==> !IsDigit(k[0])
    ensures DigitRun(d + k) == |d|
  {
    if d != [] {
      DigitRunOf(d[1..], k);
      assert (d + k)[1..] == d[1..] + k;
    } else {
      assert d + k == k;
    }
  }

  lemma IntegerEndOf(sign: bytes, d: bytes, k: bytes)
    requires sign == [] || sign == [MINUS]
    requires d != [] && forall i :: 0 <= i < |d| ==> IsDigit(d[i])
    requires d[0] == 48 ==> |d| == 1
    requires Follows(k)
    ensures IntegerEnd(sign + d + k) == Some(|sign + d|)
  {
    var s := sign + d + k;
    var a := |sign|;
    assert s[a..] == d + k;
    assert s[a] == d[0];
    DigitRunOf(d, k);
    assert d[0] != MINUS;
    if a + 1 < |s| && |d| == 1 {
      assert s[a + 1] == k[0];
    }
  }

  lemma IntValueOf(i: int)
    ensures var d := PrintNat(if i < 0 then -i else i);
      IntValue(PrintInt(i)) == i && PrintInt(i) == (if i < 0 then [MINUS] else []) + d
  {
    var n := if i < 0 then -i else i;
    PrintNatDigits(n);
    if i < 0 {
      assert PrintInt(i)[1..] == PrintNat(n);
    } else {
      assert [] + PrintNat(n) == PrintNat(n);
    }
  }

  lemma IntRoundTrip(i: int, k: bytes)
    requires INT_MIN <= i <= INT_MAX && Follows(k)
    ensures LexNumber(PrintInt(i) + k) == Scan(Int(i), k)
    ensures IsDigit(PrintInt(i)[0]) || PrintInt(i)[0] == MINUS
  {
    var p := PrintInt(i);
    var n := if i < 0 then -i else i;
    PrintNatDigits(n);
    IntValueOf(i);
    IntegerEndOf(if i < 0 then [MINUS] else [], PrintNat(n), k);
    var s := p + k;
    assert s[..|p|] == p && s[|p|..] == k;
  }

  // ---- words ----

  lemma {:induction false} AlphaRunOf(w: bytes, k: bytes)
    requires forall i :: 0 <= i < |w| ==> IsAlpha(w[i])
    requires k != [] ==> !IsAlpha(k[0])
    ensures AlphaRun(w + k) == |w|
  {
    if w != [] {
      AlphaRunOf(w[1..], k);
      assert (w + k)[1..] == w[1..] + k;
    } else {
      assert w + k == k;
    }
  }

  lemma WordRoundTrip(w: bytes, k: bytes, broken: bool)
    requires w == NULL_TEXT || w == TRUE_TEXT || w == FALSE_TEXT
    requires Follows(k)
    ensures Lex(w + k, broken) == Scan(WordToken(w), k)
  {
    AlphaRunOf(w, k);
    assert (w + k)[..|w|] == w && (w + k)[|w|..] == k;
  }

  // ---- values ----

  /** The text `p` in front of `k` is read as a value that means `v`. */
  ghost predicate Reads(p: bytes, k: bytes, v: Json, broken: bool, lf: LoadFlags) {
    var sc := Lex(p + k, broken);
    && !sc.token.Stops()
    && sc.token != Punct(RBRACKET)
    && sc.token != Punct(RBRACE)
    && ParseValue(sc.token, sc.rest, broken, lf) == Parsed(v, k)
  }

  lemma LexPunct(c: byte, s: bytes, broken: bool)
    requires IsPunct(c)
    ensures Lex([c] + s, broken) == Scan(Punct(c), s)
  {
    assert ([c] + s)[1..] == s;
  }

  lemma LexDumpedInt(i: int, k: bytes, broken: bool)
    requires INT_MIN <= i <= INT_MAX && Follows(k)
    ensures Lex(PrintInt(i) + k, broken) == Scan(Int(i), k)
  {
    hide LexNumber, PrintInt;
    IntRoundTrip(i, k);
    PrintIntNonEmpty(i);
    assert (PrintInt(i) + k)[0] == PrintInt(i)[0];
  }

  lemma PrintIntNonEmpty(i: int)
    ensures PrintInt(i) != []
  {
  }

  lemma LexDumpedString(s: bytes, ascii: bool, k: bytes, broken: bool)
    requires IsCString(s)
    ensures Lex(PrintString(s, ascii).text + k, broken) == Scan(Str(s), k)
  {
    StringRoundTrip(s, ascii, k);
    var p := PrintString(s, ascii).text + k;
    assert p[0] == QUOTE;
  }

  lemma {:induction false} ValueRoundTrip(t: Tree, flags: Flags, depth: nat, k: bytes, broken: bool, lf: LoadFlags)
    requires Speakable(t) && WellKeyed(t) && Follows(k)
    ensures Reads(Print(t, flags, depth), k, Meaning(t), broken, lf)
    decreases t, 0
  {
    hide *;
    if t.Array? {
      ArrayRoundTrip(t, flags, depth, k, broken, lf);
    } else if t.Object? {
      ObjectRoundTrip(t, flags, depth, k, broken, lf);
    } else {
      LeafRoundTrip(t, flags, depth, k, broken, lf);
    }
  }

  lemma LeafRoundTrip(t: Tree, flags: Flags, depth: nat, k: bytes, broken: bool, lf: LoadFlags)
    requires Speakable(t) && Follows(k) && !t.Array? && !t.Object?
    ensures Reads(Print(t, flags, depth), k, Meaning(t), broken, lf)
  {
    hide Lex, Escape, Emit, PrintInt, PrintString;
    match t
    case Null => WordRoundTrip(NULL_TEXT, k, broken);
    case True => WordRoundTrip(TRUE_TEXT, k, broken);
    case False => WordRoundTrip(FALSE_TEXT, k, broken);
    case Integer(i) => LexDumpedInt(i, k, broken);
    case Text(s) => LexDumpedString(s, flags.ensureAscii, k, broken);
  }

  // One step of each parser loop.

  lemma ArrayStep(s: bytes, broken: bool, lf: LoadFlags)
    requires var t := Lex(s, broken); !t.token.Stops() && t.token != Punct(RBRACKET)
    ensures var t := Lex(s, broken);
      ParseValue(Punct(LBRACKET), s, broken, lf) == ParseItems(t.token, t.rest, broken, lf, [])
  {
  }

  lemma ItemStep(tok: Token, s: bytes, v: Json, s1: bytes, acc: seq<Json>, broken: bool, lf: LoadFlags)
    requires ParseValue(tok, s, broken, lf) == Parsed(v, s1)
    ensures var t := Lex(s1, broken); var u := Lex(t.rest, broken);
      && (t.token == Punct(COMMA) ==>
        ParseItems(tok, s, broken, lf, acc) == ParseItems(u.token, u.rest, broken, lf, acc + [v]))
      && (t.token == Punct(RBRACKET) ==>
        ParseItems(tok, s, broken, lf, acc) == Parsed(JArray(acc + [v]), t.rest))
  {
  }

  lemma ObjectStep(s: bytes, broken: bool, lf: LoadFlags)
    requires var t := Lex(s, broken); !t.token.Stops() && t.token != Punct(RBRACE)
    ensures var t := Lex(s, broken);
      ParseValue(Punct(LBRACE), s, broken, lf) == ParseMembers(t.token, t.rest, broken, lf, map[])
  {
  }

  lemma MemberStep(tok: Token, s: bytes, v: Json, s1: bytes, acc: map<bytes, Json>, broken: bool, lf: LoadFlags)
    requires tok.Str? && tok.s !in acc
    requires Lex(s, broken).token == Punct(COLON)
    requires var first := Lex(Lex(s, broken).rest, broken);
      ParseValue(first.token, first.rest, broken, lf) == Parsed(v, s1)
    ensures var t := Lex(s1, broken); var u := Lex(t.rest, broken);
      && (t.token == Punct(COMMA) ==>
        ParseMembers(tok, s, broken, lf, acc) == ParseMembers(u.token, u.rest, broken, lf, acc[tok.s := v]))
      && (t.token == Punct(RBRACE) ==>
        ParseMembers(tok, s, broken, lf, acc) == Parsed(JObject(acc[tok.s := v]), t.rest))
  {
  }

  lemma EmptyReads(k: bytes, broken: bool, lf: LoadFlags)
    ensures Reads([LBRACKET, RBRACKET], k, JArray([]), broken, lf)
    ensures Reads([LBRACE, RBRACE], k, JObject(map[]), broken, lf)
  {
    assert [LBRACKET, RBRACKET] + k == [LBRACKET] + ([RBRACKET] + k);
    LexPunct(LBRACKET, [RBRACKET] + k, broken);
    LexPunct(RBRACKET, k, broken);
    assert [LBRACE, RBRACE] + k == [LBRACE] + ([RBRACE] + k);
    LexPunct(LBRACE, [RBRACE] + k, broken);
    LexPunct(RBRACE, k, broken);
  }

  lemma EmptyMeans()
    ensures Meaning(Array([])) == JArray([]) && Meaning(Object([])) == JObject(map[])
  {
  }

  lemma {:induction false} ArrayRoundTrip(t: Tree, flags: Flags, depth: nat, k: bytes, broken: bool, lf: LoadFlags)
    requires t.Array? && Speakable(t) && WellKeyed(t)
    ensures Reads(Print(t, flags, depth), k, Meaning(t), broken, lf)
    decreases t, 0, 1
  {
    hide Lex, ParseValue, ParseItems, PrintItems, Gap, Meanings;
    var items := t.items;
    if items == [] {
      EmptyReads(k, broken, lf);
      EmptyMeans();
    } else {
      var gap := Gap(flags, depth + 1, false);
      var body := PrintItems(items, flags, depth) + ([RBRACKET] + k);
      assert Print(t, flags, depth) + k == [LBRACKET] + (gap + body);
      assert Lex(Print(t, flags, depth) + k, broken) == Scan(Punct(LBRACKET), gap + body) by {
        LexPunct(LBRACKET, gap + body, broken);
      }
      assert Lex(gap + body, broken) == Lex(body, broken) by {
        GapBlank(flags, depth + 1, false);
        LexSkipsBlank(gap, body, broken);
      }
      ItemsRoundTrip(items, flags, depth, k, [], broken, lf);
      ArrayStep(gap + body, broken, lf);
      assert [] + Meanings(items) == Meanings(items);
    }
  }

  lemma {:induction false} ItemsRoundTrip(
        items: seq<Tree>, flags: Flags, depth: nat, k: bytes, acc: seq<Json>, broken: bool, lf: LoadFlags)
    requires items != []
    requires forall i :: 0 <= i < |items| ==> Speakable(items[i]) && WellKeyed(items[i])
    ensures var sc := Lex(PrintItems(items, flags, depth) + ([RBRACKET] + k), broken);
      && !sc.token.Stops() && sc.token != Punct(RBRACKET)
      && ParseItems(sc.token, sc.rest, broken, lf, acc) == Parsed(JArray(acc + Meanings(items)), k)
    decreases items, 0
  {
    hide Lex, ParseValue, ParseItems, Print, PrintItems, After, Meaning, Meanings;
    var last := |items| == 1;
    var close := [RBRACKET] + k;
    var first := Print(items[0], flags, depth + 1);
    var tail := PrintItems(items[1..], flags, depth) + close;
    var after := After(last, flags, depth);
    ItemsText(items, flags, depth, close);
    AfterFollows(last, flags, depth, tail);
    ValueRoundTrip(items[0], flags, depth + 1, after + tail, broken, lf);
    var sc := Lex(first + (after + tail), broken);
    var v := Meaning(items[0]);
    ItemStep(sc.token, sc.rest, v, after + tail, acc, broken, lf);
    MeaningsSplit(items, acc);
    if last {
      LexClose(RBRACKET, flags, depth, k, broken);
    } else {
      LexComma(flags, depth, tail, broken);
      ItemsRoundTrip(items[1..], flags, depth, k, acc + [v], broken, lf);
    }
  }

  lemma MeaningsSplit(items: seq<Tree>, acc: seq<Json>)
    requires items != []
    ensures acc + Meanings(items) == acc + [Meaning(items[0])] + Meanings(items[1..])
    ensures |items| == 1 ==> acc + Meanings(items) == acc + [Meaning(items[0])]
  {
    hide Meaning, Meanings;
    var tail := Meanings(items[1..]);
    assert Meanings(items) == [Meaning(items[0])] + tail;
    Assoc(acc, [Meaning(items[0])], tail);
  }

  lemma LexClose(c: byte, flags: Flags, depth: nat, k: bytes, broken: bool)
    requires IsPunct(c)
    ensures Lex(After(true, flags, depth) + ([c] + k), broken) == Scan(Punct(c), k)
  {
    GapBlank(flags, depth, false);
    LexSkipsBlank(After(true, flags, depth), [c] + k, broken);
    LexPunct(c, k, broken);
  }

  lemma AfterFollows(last: bool, flags: Flags, depth: nat, tail: bytes)
    requires last ==> tail != [] && (tail[0] == RBRACKET || tail[0] == RBRACE)
    ensures Follows(After(last, flags, depth) + tail)
  {
  }

  lemma LexComma(flags: Flags, depth: nat, tail: bytes, broken: bool)
    ensures Lex(After(false, flags, depth) + tail, broken).token == Punct(COMMA)
    ensures Lex(Lex(After(false, flags, depth) + tail, broken).rest, broken) == Lex(tail, broken)
  {
    var gap := Gap(flags, depth + 1, true);
    assert After(false, flags, depth) + tail == [COMMA] + (gap + tail);
    LexPunct(COMMA, gap + tail, broken);
    GapBlank(flags, depth + 1, true);
    LexSkipsBlank(gap, tail, broken);
  }

  lemma {:induction false} ObjectRoundTrip(t: Tree, flags: Flags, depth: nat, k: bytes, broken: bool, lf: LoadFlags)
    requires t.Object? && Speakable(t) && WellKeyed(t)
    ensures Reads(Print(t, flags, depth), k, Meaning(t), broken, lf)
    decreases t, 0, 1
  {
    hide Lex, ParseValue, ParseMembers, PrintMembers, Gap, MapOf;
    var ms := t.members;
    if ms == [] {
      EmptyReads(k, broken, lf);
      EmptyMeans();
    } else {
      var gap := Gap(flags, depth + 1, false);
      var body := PrintMembers(ms, flags, depth) + ([RBRACE] + k);
      assert Print(t, flags, depth) + k == [LBRACE] + (gap + body);
      assert Lex(Print(t, flags, depth) + k, broken) == Scan(Punct(LBRACE), gap + body) by {
        LexPunct(LBRACE, gap + body, broken);
      }
      assert Lex(gap + body, broken) == Lex(body, broken) by {
        GapBlank(flags, depth + 1, false);
        LexSkipsBlank(gap, body, broken);
      }
      MembersRoundTrip(ms, flags, depth, k, map[], broken, lf);
      ObjectStep(gap + body, broken, lf);
      assert map[] + MapOf(ms) == MapOf(ms);
    }
  }

  lemma {:induction false} MapOfFront(ms: seq<Member>)
    requires ms != [] && DistinctKeys(ms)
    ensures MapOf(ms) == map[ms[0].key := Meaning(ms[0].value)] + MapOf(ms[1..])
  {
    hide Meaning;
    var n := |ms| - 1;
    var front := map[ms[0].key := Meaning(ms[0].value)];
    if n == 0 {
      assert ms[..0] == [] && ms[1..] == [];
    } else {
      var init, rest := ms[..n], ms[1..];
      MapOfFront(init);
      assert init[1..] == rest[..n - 1];
      assert rest[n - 1] == ms[n];
      var inner := MapOf(rest[..n - 1]);
      assert MapOf(rest) == inner[ms[n].key := Meaning(ms[n].value)];
      assert MapOf(ms) == (front + inner)[ms[n].key := Meaning(ms[n].value)];
      AddThenSet(front, inner, ms[n].key, Meaning(ms[n].value));
    }
  }

  lemma AddThenSet(m: map<bytes, Json>, n: map<bytes, Json>, k: bytes, v: Json)
    ensures (m + n)[k := v] == m + n[k := v]
  {
  }

  lemma MapOfTail(acc: map<bytes, Json>, ms: seq<Member>)
    requires ms != [] && DistinctKeys(ms)
    ensures acc[ms[0].key := Meaning(ms[0].value)] + MapOf(ms[1..]) == acc + MapOf(ms)
    ensures |ms| == 1 ==> acc[ms[0].key := Meaning(ms[0].value)] == acc + MapOf(ms)
  {
    MapOfFront(ms);
    var tail := MapOf(ms[1..]);
    assert |ms| == 1 ==> tail == map[];
    hide *;
    SetThenAdd(acc, ms[0].key, Meaning(ms[0].value), tail);
  }

  lemma SetThenAdd(acc: map<bytes, Json>, k: bytes, v: Json, m: map<bytes, Json>)
    ensures acc[k := v] + m == acc + (map[k := v] + m)
    ensures m == map[] ==> acc[k := v] + m == acc[k := v]
  {
  }

  lemma {:induction false} MembersRoundTrip(
        ms: seq<Member>, flags: Flags, depth: nat, k: bytes, acc: map<bytes, Json>, broken: bool, lf: LoadFlags)
    requires ms != [] && DistinctKeys(ms)
    requires forall i :: 0 <= i < |ms| ==> IsCString(ms[i].key) && Speakable(ms[i].value) && WellKeyed(ms[i].value)
    requires forall i :: 0 <= i < |ms| ==> ms[i].key !in acc
    ensures var sc := Lex(PrintMembers(ms, flags, depth) + ([RBRACE] + k), broken);
      && sc.token.Str?
      && ParseMembers(sc.token, sc.rest, broken, lf, acc) == Parsed(JObject(acc + MapOf(ms)), k)
    decreases ms, 0
  {
    hide Lex, ParseValue, ParseMembers, Print, PrintMembers, PrintString, Separator, After, Meaning, MapOf;
    var last := |ms| == 1;
    var close := [RBRACE] + k;
    var m := ms[0];
    var tail := PrintMembers(ms[1..], flags, depth) + close;
    var after := After(last, flags, depth);
    var value := Print(m.value, flags, depth + 1);
    var behindKey := Separator(flags) + (value + (after + tail));
    MembersText(ms, flags, depth, close);
    LexDumpedString(m.key, flags.ensureAscii, behindKey, broken);
    LexSeparator(flags, value + (after + tail), broken);
    AfterFollows(last, flags, depth, tail);
    ValueRoundTrip(m.value, flags, depth + 1, after + tail, broken, lf);
    var v := Meaning(m.value);
    MemberStep(Str(m.key), behindKey, v, after + tail, acc, broken, lf);
    MapOfTail(acc, ms);
    if last {
      LexClose(RBRACE, flags, depth, k, broken);
    } else {
      LexComma(flags, depth, tail, broken);
      MembersRoundTrip(ms[1..], flags, depth, k, acc[m.key := v], broken, lf);
    }
  }

  lemma MembersText(ms: seq<Member>, flags: Flags, depth: nat, close: bytes)
    requires ms != []
    ensures PrintMembers(ms, flags, depth) + close ==
      PrintString(ms[0].key, flags.ensureAscii).text
        + (Separator(flags) + (Print(ms[0].value, flags, depth + 1)
        + (After(|ms| == 1, flags, depth) + (PrintMembers(ms[1..], flags, depth) + close))))
    ensures |ms| == 1 ==> PrintMembers(ms[1..], flags, depth) + close == close
  {
    var key, sep := PrintString(ms[0].key, flags.ensureAscii).text, Separator(flags);
    var value, after := Print(ms[0].value, flags, depth + 1), After(|ms| == 1, flags, depth);
    var tail := PrintMembers(ms[1..], flags, depth);
    assert PrintMembers(ms, flags, depth) == key + sep + value + after + tail;
    assert |ms| == 1 ==> tail == [] && [] + close == close;
    hide *;
    Assoc(key + sep + value + after, tail, close);
    Assoc(key + sep + value, after, tail + close);
    Assoc(key + sep, value, after + (tail + close));
    Assoc(key, sep, value + (after + (tail + close)));
  }

  lemma ItemsText(items: seq<Tree>, flags: Flags, depth: nat, close: bytes)
    requires items != []
    ensures PrintItems(items, flags, depth) + close ==
      Print(items[0], flags, depth + 1)
      + (After(|items| == 1, flags, depth) + (PrintItems(items[1..], flags, depth) + close))
    ensures |items| == 1 ==> PrintItems(items[1..], flags, depth) + close == close
  {
    var value, after := Print(items[0], flags, depth + 1), After(|items| == 1, flags, depth);
    var tail := PrintItems(items[1..], flags, depth);
    assert PrintItems(items, flags, depth) == value + after + tail;
    assert |items| == 1 ==> tail == [] && [] + close == close;
    hide *;
    Assoc(value + after, tail, close);
    Assoc(value, after, tail + close);
  }

  lemma LexSeparator(flags: Flags, s: bytes, broken: bool)
    ensures Lex(Separator(flags) + s, broken).token == Punct(COLON)
    ensures Lex(Lex(Separator(flags) + s, broken).rest, broken) == Lex(s, broken)
  {
    if flags.compact {
      LexPunct(COLON, s, broken);
    } else {
      assert Separator(flags) + s == [COLON] + ([SPACE] + s);
      LexPunct(COLON, [SPACE] + s, broken);
      LexSkipsBlank([SPACE], s, broken);
    }
  }

  // ---- whole documents ----

  lemma AsciiSound(p: bytes)
    requires forall i :: 0 <= i < |p| ==> 0 < p[i] < 0x80
    ensures IsCString(p)
  {
    Utf8.AsciiValid(p);
  }

  lemma Join(a: bytes, b: bytes)
    requires IsCString(a) && IsCString(b)
    ensures IsCString(a + b)
  {
    Utf8.ValidConcat(a, b);
  }

  lemma {:induction false} EscapedSound(s: bytes, ascii: bool)
    requires IsCString(s)
    ensures IsCString(EscapeAll(s, ascii))
    decreases |s|
  {
    if s != [] {
      var c := FirstChar(s);
      EscapedSound(s[c.size..], ascii);
      hide IsCString, Escape, NeedsEscape, Utf8.Valid, Utf8.DecodeOne;
      if NeedsEscape(c.cp, ascii) {
        EscapeSound(c.cp);
        Join(Escape(c.cp), EscapeAll(s[c.size..], ascii));
      } else {
        Join(s[..c.size], EscapeAll(s[c.size..], ascii));
      }
    }
  }

  /** A nonempty C string is one whole character and a C string. */
  lemma FirstChar(s: bytes) returns (c: Utf8.Char)
    requires IsCString(s) && s != []
    ensures Utf8.DecodeOne(s) == Some(c) && 1 <= c.size <= |s| && Utf8.IsScalar(c.cp) && c.cp != 0
    ensures IsCString(s[..c.size]) && IsCString(s[c.size..])
  {
    Utf8.ValidStep(s);
    Utf8.EncodeInvertsDecode(s);
    c := Utf8.DecodeOne(s).value;
    Utf8.ValidOfEncoding([c.cp]);
    assert Utf8.EncodeAll([c.cp]) == Utf8.Encode(c.cp) + Utf8.EncodeAll([c.cp][1..]);
    assert Utf8.Encode(c.cp) + [] == Utf8.Encode(c.cp);
  }

  lemma EscapeSound(cp: int)
    requires Utf8.IsScalar(cp) && cp != 0
    ensures IsCString(Escape(cp))
  {
    AsciiSound(Escape(cp));
  }

  lemma StringSound(s: bytes, ascii: bool)
    requires IsCString(s)
    ensures IsCString(PrintString(s, ascii).text)
  {
    PrintStringText(s, ascii);
    EscapedSound(s, ascii);
    AsciiSound([QUOTE]);
    Join([QUOTE], EscapeAll(s, ascii));
    Join([QUOTE] + EscapeAll(s, ascii), [QUOTE]);
  }

  lemma {:induction false} BlankSound(g: bytes)
    requires Blank(g)
    ensures IsCString(g)
  {
    AsciiSound(g);
  }

  /** A dump is itself NUL-free, valid UTF-8, so the stream delivers all of it. */
  lemma {:induction false} PrintSound(t: Tree, flags: Flags, depth: nat)
    requires Speakable(t)
    ensures IsCString(Print(t, flags, depth))
    decreases t, 0
  {
    match t
    case Null => AsciiSound(NULL_TEXT);
    case True => AsciiSound(TRUE_TEXT);
    case False => AsciiSound(FALSE_TEXT);
    case Integer(i) =>
      IntValueOf(i);
      PrintNatDigits(if i < 0 then -i else i);
      AsciiSound(PrintInt(i));
    case Text(s) => StringSound(s, flags.ensureAscii);
    case Array(items) => BracketsSound(LBRACKET, RBRACKET, flags, depth, PrintItems(items, flags, depth)) by {
      ItemsSound(items, flags, depth);
    }
    case Object(ms) => BracketsSound(LBRACE, RBRACE, flags, depth, PrintMembers(ms, flags, depth)) by {
      MembersSound(ms, flags, depth);
    }
  }

  lemma BracketsSound(open: byte, close: byte, flags: Flags, depth: nat, body: bytes)
    requires IsPunct(open) && IsPunct(close) && IsCString(body)
    ensures IsCString([open, close]) && IsCString([open] + Gap(flags, depth + 1, false) + body + [close])
  {
    var gap := Gap(flags, depth + 1, false);
    AsciiSound([open, close]);
    AsciiSound([open]);
    AsciiSound([close]);
    assert IsCString(gap) by {
      GapBlank(flags, depth + 1, false);
      BlankSound(gap);
    }
    hide *;
    Join([open], gap);
    Join([open] + gap, body);
    Join([open] + gap + body, [close]);
  }

  lemma AfterSound(last: bool, flags: Flags, depth: nat)
    ensures IsCString(After(last, flags, depth))
  {
    GapBlank(flags, depth, false);
    GapBlank(flags, depth + 1, true);
    BlankSound(Gap(flags, depth, false));
    BlankSound(Gap(flags, depth + 1, true));
    AsciiSound([COMMA]);
    Join([COMMA], Gap(flags, depth + 1, true));
  }

  lemma {:induction false} ItemsSound(items: seq<Tree>, flags: Flags, depth: nat)
    requires forall i :: 0 <= i < |items| ==> Speakable(items[i])
    ensures IsCString(PrintItems(items, flags, depth))
    decreases items, 0
  {
    if items == [] {
      AsciiSound([]);
    } else {
      var value, after := Print(items[0], flags, depth + 1), After(|items| == 1, flags, depth);
      var tail := PrintItems(items[1..], flags, depth);
      PrintSound(items[0], flags, depth + 1);
      AfterSound(|items| == 1, flags, depth);
      ItemsSound(items[1..], flags, depth);
      Join(value, after);
      Join(value + after, tail);
    }
  }

  lemma {:induction false} MembersSound(ms: seq<Member>, flags: Flags, depth: nat)
    requires forall i :: 0 <= i < |ms| ==> IsCString(ms[i].key) && Speakable(ms[i].value)
    ensures IsCString(PrintMembers(ms, flags, depth))
    decreases ms, 0
  {
    if ms == [] {
      AsciiSound([]);
    } else {
      var key, sep := PrintString(ms[0].key, flags.ensureAscii).text, Separator(flags);
      var value, after := Print(ms[0].value, flags, depth + 1), After(|ms| == 1, flags, depth);
      var tail := PrintMembers(ms[1..], flags, depth);
      StringSound(ms[0].key, flags.ensureAscii);
      AsciiSound(sep);
      PrintSound(ms[0].value, flags, depth + 1);
      AfterSound(|ms| == 1, flags, depth);
      MembersSound(ms[1..], flags, depth);
      assert PrintMembers(ms, flags, depth) == key + sep + value + after + tail;
      hide *;
      Join(key, sep);
      Join(key + sep, value);
      Join(key + sep + value, after);
      Join(key + sep + value + after, tail);
    }
  }

  lemma ReorderSpeakable(t: Tree, order: Order)
    requires Speakable(t)
    ensures Speakable(Reorder(t, order))
  {
    match t
    case Array(items) =>
      forall i | 0 <= i < |items|
        ensures Speakable(Reorder(items[i], order))
      {
        ReorderSpeakable(items[i], order);
      }
    case Object(ms) =>
      var rs := ReorderMembers(ms, order);
      forall i | 0 <= i < |ms|
        ensures IsCString(rs[i].key) && Speakable(rs[i].value)
      {
        ReorderSpeakable(ms[i].value, order);
      }
      var a := Arrange(order, rs);
      SameMembers(a, rs);
      forall i | 0 <= i < |a|
        ensures IsCString(a[i].key) && Speakable(a[i].value)
      {
        assert a[i] in rs;
      }
    case _ =>
  }

  /**
   * Loading what json_dumps produced gives the value that was dumped: for every array or object (or any value
   * when both sides allow it), every dump flag combination and every load flag combination.
   */
  lemma LoadInvertsDump(t: Tree, flags: Flags, lf: LoadFlags)
    requires Speakable(t) && WellKeyed(t)
    requires t.Array? || t.Object? || lf.decodeAny
    ensures Load(Dump(t, flags), lf) == Some(Meaning(t))
  {
    var order := OrderOf(flags);
    var r := Reorder(t, order);
    assert Meaning(r) == Meaning(t) && WellKeyed(r) by { ReorderKeepsMeaning(t, order); }
    assert Speakable(r) by { ReorderSpeakable(t, order); }
    var text := Dump(t, flags);
    assert Utf8.ValidPrefix(text) == text by { PrintSound(r, flags, 0); }
    assert Reads(text, [], Meaning(t), false, lf) by { ValueRoundTrip(r, flags, 0, [], false, lf); }
    assert text + [] == text;
    if !lf.decodeAny {
      assert text[0] == LBRACKET || text[0] == LBRACE;
      assert IsPunct(text[0]);
    }
  }
}
