/**
 * How the parsers read text: separators and numbers, the words of a line, what a word declares, and the elements of
 * a vector line (user/confrd/parser_common.c, parser_vec.c), and the proof that all of it is the grammar of
 * VectorText.
 */
module VectorScan {
  import opened Bytes
  import opened VectorText

  // ---- characters and numbers ----

  predicate IsBlank(b: byte) {
    b == 32 || b == 9
  }

  predicate IsSep(b: byte) {
    IsBlank(b) || b == 44
  }

  function SkipBlanks(s: bytes, i: nat): (r: nat)
    requires i <= |s|
    ensures i <= r <= |s|
    decreases |s| - i
  {
    if i < |s| && IsBlank(s[i]) then SkipBlanks(s, i + 1) else i
  }

  function SkipSeps(s: bytes, i: nat): (r: nat)
    requires i <= |s|
    ensures i <= r <= |s| && (r < |s| ==> !IsSep(s[r]))
    ensures i < |s| && !IsSep(s[i]) ==> r == i
    ensures forall k :: i <= k < r ==> IsSep(s[k])
    decreases |s| - i
  {
    if i < |s| && IsSep(s[i]) then SkipSeps(s, i + 1) else i
  }

  /** The digits from `i` on: their value after `acc`, and where they end. */
  function Digits(s: bytes, i: nat, acc: nat): (r: (nat, nat))
    requires i <= |s|
    ensures i <= r.1 <= |s| && (r.1 < |s| ==> !IsDigit(s[r.1]))
    ensures forall k :: i <= k < r.1 ==> IsDigit(s[k])
    decreases |s| - i
  {
    if i < |s| && IsDigit(s[i]) then Digits(s, i + 1, acc * 10 + (s[i] - 48)) else (acc, i)
  }

  predicate IsSpace(b: byte) {
    b == 32 || 9 <= b <= 13
  }

  function SkipSpace(s: bytes, i: nat): (r: nat)
    requires i <= |s|
    ensures i <= r <= |s| && (r < |s| ==> !IsSpace(s[r]))
    ensures forall k :: i <= k < r ==> IsSpace(s[k])
    decreases |s| - i
  {
    if i < |s| && IsSpace(s[i]) then SkipSpace(s, i + 1) else i
  }

  /** strtol(s + i, &e, 10): the value and the offset of e, which is i itself when there is no number. */
  function Strtol(s: bytes, i: nat): (r: (int, nat))
    requires i <= |s|
    ensures i <= r.1 <= |s|
  {
    var j := SkipSpace(s, i);
    var negative := j < |s| && s[j] == 45;
    var k := if negative || (j < |s| && s[j] == 43) then j + 1 else j;
    var number := Digits(s, k, 0);
    var value: int := number.0;
    if number.1 == k then (0, i) else (if negative then -value else value, number.1)
  }

  // ---- the pin definition ----

  /** A line that does not end with a separator, after which the tokenizer would read on. */
  predicate Ended(s: bytes) {
    s != [] && !IsSep(s[|s| - 1])
  }

  /** A line that does not start with one either, so that no word is empty. */
  predicate Trimmed(s: bytes) {
    Ended(s) && !IsSep(s[0])
  }

  function WordEnd(s: bytes, i: nat): (r: nat)
    requires i <= |s|
    ensures i <= r <= |s| && (r < |s| ==> IsSep(s[r]))
    ensures forall k :: i <= k < r ==> !IsSep(s[k])
    decreases |s| - i
  {
    if i < |s| && !IsSep(s[i]) then WordEnd(s, i + 1) else i
  }

  lemma {:induction false} SkipInside(s: bytes, i: nat)
    requires s != [] && !IsSep(s[|s| - 1]) && i < |s|
    ensures SkipSeps(s, i) < |s|
    decreases |s| - i
  {
    if IsSep(s[i]) {
      SkipInside(s, i + 1);
    }
  }

  /** The words of a line between runs of blanks and commas; the first is empty when the line starts with those. */
  function Words(s: bytes): (r: seq<bytes>)
    requires Ended(s)
    ensures r != []
    decreases |s|
  {
    var e := WordEnd(s, 0);
    if e == |s| then [s]
    else
      SkipInside(s, e);
      var n := SkipSeps(s, e);
      assert s[n..][|s[n..]| - 1] == s[|s| - 1];
      [s[..e]] + Words(s[n..])
  }

  lemma EndedLast(s: bytes)
    requires Ended(s)
    ensures s != [] && !IsSep(s[|s| - 1])
  {
  }

  lemma {:induction false} WordEndAt(s: bytes, i: nat, j: nat)
    requires i <= j <= |s| && (j < |s| ==> IsSep(s[j])) && forall k :: i <= k < j ==> !IsSep(s[k])
    ensures WordEnd(s, i) == j
    decreases j - i
  {
    if i < j {
      WordEndAt(s, i + 1, j);
    }
  }

  lemma {:induction false} SkipSuffix(s: bytes, start: nat, i: nat)
    requires start + i <= |s|
    ensures SkipSeps(s[start..], i) + start == SkipSeps(s, start + i)
    decreases |s| - i
  {
    if start + i < |s| && IsSep(s[start + i]) {
      SkipSuffix(s, start, i + 1);
    }
  }

  lemma WordAt(s: bytes, start: nat, i: nat)
    requires start <= i < |s| && IsSep(s[i]) && forall k :: start <= k < i ==> !IsSep(s[k])
    requires Ended(s[start..]) && !IsSep(s[|s| - 1])
    ensures var n := SkipSeps(s, i);
      n < |s| && Ended(s[n..]) && Words(s[start..]) == [s[start..i]] + Words(s[n..])
  {
    var t, e := s[start..], i - start;
    SkipInside(s, i);
    WordEndAt(t, 0, e);
    SkipSuffix(s, start, e);
    assert t[..e] == s[start..i];
    assert t[SkipSeps(t, e)..] == s[SkipSeps(s, i)..];
  }

  lemma LastWord(s: bytes, start: nat)
    requires start < |s| && Ended(s[start..]) && forall k :: start <= k < |s| ==> !IsSep(s[k])
    ensures Words(s[start..]) == [s[start..]]
  {
    WordEndAt(s[start..], 0, |s| - start);
  }

  function KindOf(token: bytes): Kind
    requires token != []
  {
    if token[0] == 65 then Input else Output
  }

  /** What a token declares; None when it is not a pin in range. */
  function PinOf(token: bytes): Option<Pin>
    requires token != [] && 45 !in token
  {
    NoMinus(token, 1);
    var number := Strtol(token, 1);
    if number.1 != |token| || number.0 >= PINS then None else Some(Pin(KindOf(token), number.0))
  }

  lemma NoMinus(s: bytes, i: nat)
    requires i <= |s| && 45 !in s
    ensures Strtol(s, i).0 >= 0
  {
  }

  predicate Proper(tokens: seq<bytes>) {
    forall i :: 0 <= i < |tokens| ==> tokens[i] != [] && 45 !in tokens[i]
  }

  function PinsOf(tokens: seq<bytes>): (r: Option<seq<Pin>>)
    requires Proper(tokens)
    ensures r.Some? ==> |r.value| == |tokens| && forall i :: 0 <= i < |tokens| ==> PinOf(tokens[i]) == Some(r.value[i])
    ensures r == None ==> exists i :: 0 <= i < |tokens| && PinOf(tokens[i]) == None
  {
    if tokens == [] then Some([])
    else
      var rest := PinsOf(tokens[..|tokens| - 1]);
      var last := PinOf(tokens[|tokens| - 1]);
      if rest == None || last == None then None else Some(rest.value + [last.value])
  }

  lemma {:induction false} WordsProper(s: bytes)
    requires Trimmed(s) && 45 !in s
    ensures Proper(Words(s))
    decreases |s|
  {
    var e := WordEnd(s, 0);
    if e < |s| {
      SkipInside(s, e);
      var n := SkipSeps(s, e);
      assert s[n..][|s[n..]| - 1] == s[|s| - 1];
      WordsProper(s[n..]);
      assert e > 0;
    }
  }

  /** Every token is an 'A', or none is for outputs, and a whole number. */
  predicate NamesOnly(tokens: seq<bytes>, kind: Kind) {
    forall i :: 0 <= i < |tokens| ==>
      tokens[i] != [] && (tokens[i][0] == 65 <==> kind == Input) && Strtol(tokens[i], 1).1 == |tokens[i]|
  }

  predicate InRange(pins: seq<Pin>) {
    forall i :: 0 <= i < |pins| ==> pins[i].no < PINS
  }

  // ---- a vector line ----

  /** What has been read of a line: one character per pin so far, and the wait or trigger setting. */
  datatype Scan = Scan(chars: bytes, cycles: int, mode: nat, modeSet: bool)

  const START: Scan := Scan([], 1, 0, false)

  /** One element of the line and the separators after it; None is a syntax error. */
  function Element(s: bytes, i: nat, st: Scan, pins: seq<Pin>): (r: Option<(nat, Scan)>)
    requires i < |s|
    ensures r.Some? ==> i < r.value.0 <= |s|
  {
    var c := s[i];
    if c == 119 || c == 87 then
      if st.modeSet then None
      else
        var number := Strtol(s, SkipBlanks(s, i + 1));
        if number.0 < 1 || number.0 > 32 then None
        else Some((SkipSeps(s, number.1), Scan(st.chars, number.0, 0, true)))
    else if c == 116 || c == 84 then
      if st.modeSet then None else Some((SkipSeps(s, i + 1), Scan(st.chars, 32, 1, true)))
    else if c == 48 || c == 49 then
      if |st.chars| >= |pins| then None else Some((SkipSeps(s, i + 1), st.(chars := st.chars + [c])))
    else if c == 88 || c == 120 then
      if |st.chars| >= |pins| || pins[|st.chars|].kind == Input then None
      else Some((SkipSeps(s, i + 1), st.(chars := st.chars + [88])))
    else None
  }

  /** The whole line: accepted when there is exactly one character per declared pin. */
  function ScanLine(s: bytes, i: nat, st: Scan, pins: seq<Pin>): Option<Scan>
    requires i <= |s|
    decreases |s| - i
  {
    if i == |s| then (if |st.chars| < |pins| then None else Some(st))
    else
      var e := Element(s, i, st, pins);
      if e == None then None else ScanLine(s, e.value.0, e.value.1, pins)
  }

  lemma ScanStep(s: bytes, i: nat, st: Scan, pins: seq<Pin>)
    requires i < |s|
    ensures var e := Element(s, i, st, pins);
      ScanLine(s, i, st, pins) == if e == None then None else ScanLine(s, e.value.0, e.value.1, pins)
  {
  }

  lemma ScanEnd(s: bytes, st: Scan, pins: seq<Pin>)
    ensures ScanLine(s, |s|, st, pins) == if |st.chars| < |pins| then None else Some(st)
  {
  }

  // ---- numbers are the numerals of the grammar ----

  lemma {:induction false} SpaceRun(s: bytes, i: nat, j: nat)
    requires i <= j <= |s| && (forall k :: i <= k < j ==> IsSpace(s[k])) && (j < |s| ==> !IsSpace(s[j]))
    ensures SkipSpace(s, i) == j
    decreases j - i
  {
    if i < j {
      SpaceRun(s, i + 1, j);
    }
  }

  lemma {:induction false} BlanksAreSpace(s: bytes, i: nat)
    requires i <= |s|
    ensures SkipSpace(s, SkipBlanks(s, i)) == SkipSpace(s, i)
    decreases |s| - i
  {
    if i < |s| && IsBlank(s[i]) {
      BlanksAreSpace(s, i + 1);
    }
  }

  lemma {:induction false} DigitsRun(s: bytes, i: nat, d: bytes)
    requires AllDigits(d) && i + |d| <= |s| && s[i..i + |d|] == d
    ensures Decimal(d) >= 0 && Digits(s, i, 0) == Digits(s, i + |d|, Decimal(d))
    decreases |d|
  {
    if d != [] {
      var n := |d| - 1;
      assert s[i..i + n] == s[i..i + |d|][..n] == d[..n];
      assert s[i + n] == s[i..i + |d|][n] == d[n];
      DigitsRun(s, i, d[..n]);
    }
  }

  /** A numeral that no digit follows is what strtol reads. */
  lemma NumeralRead(s: bytes, i: nat, n: Numeral)
    requires GoodNumeral(n)
    requires i + |NumeralText(n)| <= |s| && s[i..i + |NumeralText(n)|] == NumeralText(n)
    requires i + |NumeralText(n)| < |s| ==> !IsDigit(s[i + |NumeralText(n)|])
    ensures Strtol(s, i) == (NumeralValue(n), i + |NumeralText(n)|)
  {
    hide SkipSpace, Digits, Decimal;
    var j, k := i + |n.space|, i + |n.space| + |n.sign|;
    NumeralPlaces(s, i, n);
    SpaceRun(s, i, j);
    DigitsRun(s, k, n.digits);
    NoDigits(s, k + |n.digits|, Decimal(n.digits));
  }

  lemma NumeralPlaces(s: bytes, i: nat, n: Numeral)
    requires GoodNumeral(n)
    requires i + |NumeralText(n)| <= |s| && s[i..i + |NumeralText(n)|] == NumeralText(n)
    ensures var j, k := i + |n.space|, i + |n.space| + |n.sign|;
      && (forall m :: i <= m < j ==> IsSpace(s[m])) && (n.sign != [] ==> s[j] == n.sign[0]) && !IsSpace(s[j])
      && k + |n.digits| == i + |NumeralText(n)| && s[k..k + |n.digits|] == n.digits && IsDigit(s[k])
  {
    var t := NumeralText(n);
    var k := i + |n.space| + |n.sign|;
    assert forall m :: i <= m < i + |t| ==> s[m] == s[i..i + |t|][m - i] == t[m - i];
    assert s[k] == n.digits[0];
  }

  lemma NoDigits(s: bytes, i: nat, acc: nat)
    requires i <= |s| && (i < |s| ==> !IsDigit(s[i]))
    ensures Digits(s, i, acc) == (acc, i)
  {
  }

  /** What strtol reads is a numeral. */
  lemma NumeralFound(s: bytes, i: nat) returns (n: Numeral)
    requires i <= |s| && Strtol(s, i).1 > i
    ensures var end := Strtol(s, i).1;
      GoodNumeral(n) && s[i..end] == NumeralText(n) && (end < |s| ==> !IsDigit(s[end]))
  {
    hide SkipSpace, Digits;
    var j := SkipSpace(s, i);
    var k := if j < |s| && (s[j] == 45 || s[j] == 43) then j + 1 else j;
    var end := Digits(s, k, 0).1;
    n := Numeral(s[i..j], s[j..k], s[k..end]);
    assert s[i..end] == s[i..j] + s[j..k] + s[k..end];
  }

  // ---- words are those of the grammar ----

  lemma JoinFirst(words: seq<bytes>, gaps: seq<bytes>)
    requires |words| == |gaps| + 1 && gaps != []
    ensures Join(words, gaps) == words[0] + (gaps[0] + Join(words[1..], gaps[1..]))
  {
    Assoc(words[0], gaps[0], Join(words[1..], gaps[1..]));
  }

  lemma SplitsRest(s: bytes, words: seq<bytes>, gaps: seq<bytes>)
    requires Splits(s, words, gaps) && gaps != []
    ensures Splits(Join(words[1..], gaps[1..]), words[1..], gaps[1..])
  {
    hide Join, Word, Seps;
  }

  /** A line splits in one way only, which is how it is read. */
  lemma {:induction false} SplitRead(s: bytes, words: seq<bytes>, gaps: seq<bytes>)
    requires Splits(s, words, gaps)
    ensures Trimmed(s) && Words(s) == words
    decreases |gaps|
  {
    var w := words[0];
    if gaps == [] {
      WordEndAt(s, 0, |s|);
    } else {
      var g, rest := gaps[0], Join(words[1..], gaps[1..]);
      JoinFirst(words, gaps);
      SplitsRest(s, words, gaps);
      SplitRead(rest, words[1..], gaps[1..]);
      OneSplit(w, g, rest);
      assert words == [w] + words[1..];
    }
  }

  lemma OneSplit(w: bytes, g: bytes, rest: bytes)
    requires Word(w) && g != [] && Seps(g) && Trimmed(rest)
    ensures var s := w + (g + rest); Trimmed(s) && Words(s) == [w] + Words(rest)
  {
    var s, a, b := w + (g + rest), |w|, |w| + |g|;
    Pieces(w, g, rest);
    assert s[..a] == w && s[b..] == rest;
    WordEndAt(s, 0, a);
    SepsEndAt(s, a, b);
  }

  lemma Pieces(w: bytes, g: bytes, rest: bytes)
    requires Word(w) && g != [] && Seps(g) && Trimmed(rest)
    ensures var s, a, b := w + (g + rest), |w|, |w| + |g|;
      && s[0] == w[0] && s[b] == rest[0] && s[|s| - 1] == rest[|rest| - 1] && !IsSep(s[0]) && !IsSep(s[b])
      && (forall k :: 0 <= k < a ==> !IsSep(s[k])) && (forall k :: a <= k < b ==> IsSep(s[k]))
  {
    var s := w + (g + rest);
    assert forall k :: 0 <= k < |w| ==> s[k] == w[k];
    assert forall k :: |w| <= k < |w| + |g| ==> s[k] == g[k - |w|];
  }

  lemma {:induction false} SepsEndAt(s: bytes, i: nat, j: nat)
    requires i <= j <= |s| && (j < |s| ==> !IsSep(s[j])) && forall k :: i <= k < j ==> IsSep(s[k])
    ensures SkipSeps(s, i) == j
    decreases j - i
  {
    if i < j {
      SepsEndAt(s, i + 1, j);
    }
  }

  lemma SplitsFirst(w: bytes, g: bytes, rest: bytes, words: seq<bytes>, gaps: seq<bytes>)
    requires Word(w) && g != [] && Seps(g) && Splits(rest, words, gaps)
    ensures Splits(w + (g + rest), [w] + words, [g] + gaps)
  {
    hide Word, Seps;
    JoinFirst([w] + words, [g] + gaps);
    assert ([w] + words)[1..] == words && ([g] + gaps)[1..] == gaps;
  }

  lemma WordsStep(s: bytes) returns (e: nat, n: nat)
    requires Trimmed(s)
    ensures 0 < e <= n <= |s| && Word(s[..e]) && Seps(s[e..n])
    ensures n == |s| ==> e == n && Words(s) == [s]
    ensures n < |s| ==> e < n && Trimmed(s[n..]) && Words(s) == [s[..e]] + Words(s[n..])
  {
    e := WordEnd(s, 0);
    n := e;
    assert s[..|s|] == s;
    if e < |s| {
      SkipInside(s, e);
      n := SkipSeps(s, e);
      assert s[n..][|s[n..]| - 1] == s[|s| - 1];
    }
  }

  lemma OneWord(s: bytes)
    requires Word(s)
    ensures Splits(s, [s], [])
  {
    hide Word;
  }

  lemma ThreeParts(s: bytes, e: nat, n: nat)
    requires e <= n <= |s|
    ensures s == s[..e] + (s[e..n] + s[n..])
  {
  }

  lemma {:induction false} SplitFound(s: bytes) returns (gaps: seq<bytes>)
    requires Trimmed(s)
    ensures Splits(s, Words(s), gaps)
    decreases |s|
  {
    var e, n := WordsStep(s);
    hide *;
    if n == |s| {
      gaps := [];
      assert s[..e] == s;
      OneWord(s);
    } else {
      var more := SplitFound(s[n..]);
      gaps := [s[e..n]] + more;
      ThreeParts(s, e, n);
      SplitsFirst(s[..e], s[e..n], s[n..], Words(s[n..]), more);
    }
  }

  // ---- pins are those of the grammar ----

  lemma PinRead(w: PinWord)
    requires GoodPin(w)
    ensures var t := PinText(w);
      && 45 !in t && Strtol(t, 1) == (PinMeant(w).no, |t|)
      && PinOf(t) == if PinMeant(w).no < PINS then Some(PinMeant(w)) else None
  {
    hide Strtol, Word, Decimal;
    var t := PinText(w);
    match w.number {
      case None =>
        NothingThere(t, 1);
      case Some(n) =>
        assert t[1..1 + |NumeralText(n)|] == NumeralText(n);
        NumeralRead(t, 1, n);
        NoMinusSign(n);
    }
  }

  lemma NoMinusSign(n: Numeral)
    requires GoodNumeral(n) && n.sign != [45]
    ensures 45 !in NumeralText(n)
  {
  }

  lemma NoMinusIn(n: Numeral)
    requires 45 !in NumeralText(n)
    ensures n.sign != [45]
  {
    assert n.sign == [45] ==> 45 in n.sign;
  }

  lemma NothingThere(s: bytes, i: nat)
    requires i == |s|
    ensures Strtol(s, i) == (0, i)
  {
  }

  lemma PinFound(token: bytes) returns (w: PinWord)
    requires Word(token) && 45 !in token && PinOf(token).Some?
    ensures GoodPin(w) && PinText(w) == token
  {
    hide Strtol;
    if |token| == 1 {
      w := PinWord(token[0], None);
      assert token == [token[0]];
    } else {
      assert Strtol(token, 1).1 == |token|;
      var n := NumeralFound(token, 1);
      w := PinWord(token[0], Some(n));
      assert token == [token[0]] + token[1..];
      NoMinusIn(n);
    }
  }

  /** A definition of the grammar is read as the pins it means. */
  lemma DefinitionRead(s: bytes, ws: seq<PinWord>, gaps: seq<bytes>)
    requires Defines(s, ws, gaps)
    ensures Trimmed(s) && Words(s) == PinTexts(ws) && Proper(Words(s))
    ensures PinsOf(Words(s)) == if InRange(PinsMeant(ws)) then Some(PinsMeant(ws)) else None
  {
    hide Words, Splits, PinOf, PinMeant, GoodPin;
    SplitRead(s, PinTexts(ws), gaps);
    var tokens := PinTexts(ws);
    forall i | 0 <= i < |ws|
      ensures 45 !in tokens[i]
      ensures PinOf(tokens[i]) == if PinMeant(ws[i]).no < PINS then Some(PinMeant(ws[i])) else None
    {
      PinRead(ws[i]);
    }
    if PinsOf(tokens).Some? {
      assert PinsOf(tokens).value == PinsMeant(ws);
    }
  }

  /** A definition that is read is one of the grammar. */
  lemma DefinitionFound(s: bytes) returns (ws: seq<PinWord>, gaps: seq<bytes>)
    requires Trimmed(s) && 45 !in s && Proper(Words(s)) && PinsOf(Words(s)).Some?
    ensures Defines(s, ws, gaps)
  {
    hide Words, Splits, PinOf, GoodPin;
    gaps := SplitFound(s);
    var tokens := Words(s);
    ws := [];
    var i := 0;
    while i < |tokens|
      invariant 0 <= i <= |tokens| && |ws| == i
      invariant forall k :: 0 <= k < i ==> GoodPin(ws[k]) && PinText(ws[k]) == tokens[k]
    {
      WordOf(s, tokens, gaps, i);
      var w := PinFound(tokens[i]);
      ws := ws + [w];
      i := i + 1;
    }
    assert PinTexts(ws) == tokens;
  }

  lemma WordOf(s: bytes, words: seq<bytes>, gaps: seq<bytes>, i: nat)
    requires Splits(s, words, gaps) && i < |words|
    ensures Word(words[i])
  {
  }

  /** The words of a line are pins in range exactly when the line is a definition of such pins. */
  lemma DefinitionIff(s: bytes)
    requires Trimmed(s) && 45 !in s
    ensures Proper(Words(s))
    ensures PinsOf(Words(s)).Some? <==> exists ws, gaps :: Defines(s, ws, gaps) && InRange(PinsMeant(ws))
    ensures forall ws, gaps :: Defines(s, ws, gaps) ==> |ws| == |Words(s)|
    ensures forall ws, gaps :: Defines(s, ws, gaps) ==>
      PinsOf(Words(s)) == if InRange(PinsMeant(ws)) then Some(PinsMeant(ws)) else None
  {
    hide Words, PinsOf, Defines, Proper, InRange;
    WordsProper(s);
    forall ws, gaps | Defines(s, ws, gaps)
      ensures forall i :: 0 <= i < |ws| ==> GoodPin(ws[i])
      ensures |ws| == |Words(s)|
      ensures PinsOf(Words(s)) == if InRange(PinsMeant(ws)) then Some(PinsMeant(ws)) else None
    {
      DefinesGood(s, ws, gaps);
      DefinitionRead(s, ws, gaps);
    }
    if PinsOf(Words(s)).Some? {
      var ws, gaps := DefinitionFound(s);
      assert Defines(s, ws, gaps);
    }
  }

  lemma DefinesGood(s: bytes, ws: seq<PinWord>, gaps: seq<bytes>)
    requires Defines(s, ws, gaps)
    ensures forall i :: 0 <= i < |ws| ==> GoodPin(ws[i])
  {
  }

  predicate OnlyKind(ws: seq<PinWord>, kind: Kind) {
    forall i :: 0 <= i < |ws| ==> (ws[i].letter == 65 <==> kind == Input)
  }

  /** With all numbers in range, the words name pins of one kind exactly when the line is a definition of such pins. */
  lemma NamesIff(s: bytes, kind: Kind)
    requires Trimmed(s) && 45 !in s
    requires forall i :: 0 <= i < |Words(s)| ==> Words(s)[i] != [] && Strtol(Words(s)[i], 1).0 < PINS
    ensures Proper(Words(s))
    ensures NamesOnly(Words(s), kind) <==> exists ws, gaps :: Defines(s, ws, gaps) && OnlyKind(ws, kind)
    ensures NamesOnly(Words(s), kind) ==> PinsOf(Words(s)).Some?
    ensures forall ws, gaps :: Defines(s, ws, gaps) ==> |ws| == |Words(s)|
    ensures forall ws, gaps :: Defines(s, ws, gaps) ==> PinsOf(Words(s)) == Some(PinsMeant(ws))
  {
    hide Words, PinsOf, Defines, Strtol, NamesOnly, OnlyKind;
    DefinitionIff(s);
    var tokens := Words(s);
    forall ws, gaps | Defines(s, ws, gaps)
      ensures forall i :: 0 <= i < |ws| ==> GoodPin(ws[i])
      ensures InRange(PinsMeant(ws)) && (NamesOnly(tokens, kind) <==> OnlyKind(ws, kind))
    {
      DefinesGood(s, ws, gaps);
      DefinitionRead(s, ws, gaps);
      NamesAre(ws, kind);
    }
    if NamesOnly(tokens, kind) {
      AllPins(tokens, kind);
      var ws, gaps := DefinitionFound(s);
      assert Defines(s, ws, gaps);
    }
  }

  lemma NamesAre(ws: seq<PinWord>, kind: Kind)
    requires forall i :: 0 <= i < |ws| ==> GoodPin(ws[i]) && Strtol(PinText(ws[i]), 1).0 < PINS
    ensures InRange(PinsMeant(ws)) && (NamesOnly(PinTexts(ws), kind) <==> OnlyKind(ws, kind))
  {
    hide Strtol, PinMeant, GoodPin;
    forall i | 0 <= i < |ws|
      ensures PinMeant(ws[i]).no < PINS
      ensures Strtol(PinText(ws[i]), 1).1 == |PinText(ws[i])| && PinText(ws[i])[0] == ws[i].letter
    {
      PinRead(ws[i]);
    }
    if NamesOnly(PinTexts(ws), kind) {
      assert forall i :: 0 <= i < |ws| ==> PinTexts(ws)[i] == PinText(ws[i]);
    }
  }

  lemma AllPins(tokens: seq<bytes>, kind: Kind)
    requires Proper(tokens) && NamesOnly(tokens, kind)
    requires forall i :: 0 <= i < |tokens| ==> Strtol(tokens[i], 1).0 < PINS
    ensures PinsOf(tokens).Some?
  {
    hide Strtol;
  }

  /** Pins written the usual way, with any separators, are such a definition. */
  lemma PlainDefinition(pins: seq<Pin>, gaps: seq<bytes>)
    requires |pins| == |gaps| + 1 && InRange(pins)
    requires forall i :: 0 <= i < |gaps| ==> gaps[i] != [] && Seps(gaps[i])
    ensures var ws := seq(|pins|, i requires 0 <= i < |pins| => PlainWord(pins[i]));
      Defines(Join(PinTexts(ws), gaps), ws, gaps) && PinsMeant(ws) == pins
  {
    forall i | 0 <= i < |pins|
      ensures GoodPin(PlainWord(pins[i])) && PinMeant(PlainWord(pins[i])) == pins[i]
    {
      PlainPin(pins[i]);
    }
  }

  lemma PlainPin(p: Pin)
    requires p.no < PINS
    ensures GoodPin(PlainWord(p)) && PinMeant(PlainWord(p)) == p
  {
    hide Decimal;
    if p.no < 10 {
      Decimals([], 48 + p.no);
    } else {
      Decimals([], 48 + p.no / 10);
      Decimals([48 + p.no / 10], 48 + p.no % 10);
      assert [48 + p.no / 10] + [48 + p.no % 10] == [48 + p.no / 10, 48 + p.no % 10];
    }
  }

  lemma Decimals(d: bytes, c: byte)
    ensures Decimal(d + [c]) == 10 * Decimal(d) + ((c as int) - 48) && Decimal([c]) == (c as int) - 48
  {
    var more: bytes, one: bytes := d + [c], [c];
    assert more[..|more| - 1] == d;
    assert one[..|one| - 1] == [];
  }

  // ---- vector lines are those of the grammar ----

  /** The item stands at `i`; behind its separators there are no more of them, and a digit only when it is set off. */
  predicate Stands(s: bytes, i: nat, e: Item) {
    && GoodItem(e)
    && var end := i + |ItemText(e) + e.seps|;
       && end <= |s| && s[i..end] == ItemText(e) + e.seps
       && (end < |s| ==> !IsSep(s[end]) && (e.WaitItem? && e.seps == [] ==> !IsDigit(s[end])))
  }

  predicate ItemFits(st: Scan, e: Item, pins: seq<Pin>) {
    if e.PinItem? then |st.chars| < |pins| && (e.c >= 88 ==> pins[|st.chars|].kind == Output) else !st.modeSet
  }

  function ItemMeant(st: Scan, e: Item): Scan {
    match e
    case PinItem(c, _) => st.(chars := st.chars + [if c == 120 then 88 else c])
    case WaitItem(_, n, _) => Scan(st.chars, NumeralValue(n), 0, true)
    case TriggerItem(_, _) => Scan(st.chars, 32, 1, true)
  }

  lemma AfterText(s: bytes, i: nat, e: Item)
    requires Stands(s, i, e)
    ensures ItemText(e) != [] && i + |ItemText(e)| <= |s|
    ensures s[i] == ItemText(e)[0] && s[i..i + |ItemText(e)|] == ItemText(e)
    ensures SkipSeps(s, i + |ItemText(e)|) == i + |ItemText(e) + e.seps|
    ensures i + |ItemText(e)| < |s| && e.WaitItem? ==> !IsDigit(s[i + |ItemText(e)|])
  {
    hide *;
    var text := ItemText(e);
    StandsAs(s, i, e);
    SepsBehind(s, i, text, e.seps);
    if e.seps != [] {
      SepNoDigit(s[i + |text|]);
    } else {
      assert text + [] == text;
    }
  }

  lemma StandsAs(s: bytes, i: nat, e: Item)
    requires Stands(s, i, e)
    ensures ItemText(e) != [] && Seps(e.seps)
    ensures var end := i + |ItemText(e) + e.seps|;
      && end <= |s| && s[i..end] == ItemText(e) + e.seps
      && (end < |s| ==> !IsSep(s[end]) && (e.WaitItem? && e.seps == [] ==> !IsDigit(s[end])))
  {
    hide NumeralText, NumeralValue, GoodNumeral, Seps, IsSep, IsDigit;
  }

  lemma SepNoDigit(b: byte)
    requires IsSep(b)
    ensures !IsDigit(b)
  {
  }

  lemma SepsBehind(s: bytes, i: nat, text: bytes, seps: bytes)
    requires text != [] && i + |text + seps| <= |s| && s[i..i + |text + seps|] == text + seps && Seps(seps)
    requires i + |text + seps| < |s| ==> !IsSep(s[i + |text + seps|])
    ensures s[i] == text[0] && s[i..i + |text|] == text && SkipSeps(s, i + |text|) == i + |text + seps|
    ensures seps != [] ==> IsSep(s[i + |text|])
  {
    var t := text + seps;
    assert forall k :: i <= k < i + |t| ==> s[k] == s[i..i + |t|][k - i] == t[k - i];
    SepsEndAt(s, i + |text|, i + |t|);
  }

  lemma {:induction false} SkipTwice(s: bytes, i: nat)
    requires i <= |s|
    ensures var n := Strtol(s, SkipBlanks(s, i)); n.0 == Strtol(s, i).0 && (n.0 != 0 ==> n == Strtol(s, i))
  {
    BlanksAreSpace(s, i);
  }

  lemma WaitRead(s: bytes, i: nat, e: Item)
    requires Stands(s, i, e) && e.WaitItem?
    ensures i < |s| && Strtol(s, SkipBlanks(s, i + 1)) == (NumeralValue(e.number), i + |ItemText(e)|)
    ensures 1 <= NumeralValue(e.number) <= 32
  {
    AfterText(s, i, e);
    hide Strtol, NumeralValue, NumeralText, GoodNumeral, SkipBlanks, SkipSeps, Seps;
    BehindFirst(s, i, e.letter, NumeralText(e.number));
    NumeralRead(s, i + 1, e.number);
    SkipTwice(s, i + 1);
  }

  lemma BehindFirst(s: bytes, i: nat, c: byte, t: bytes)
    requires i + 1 + |t| <= |s| && s[i..i + 1 + |t|] == [c] + t
    ensures s[i + 1..i + 1 + |t|] == t
  {
    assert s[i..i + 1 + |t|][1..] == s[i + 1..i + 1 + |t|];
  }

  lemma ItemRead(s: bytes, i: nat, st: Scan, pins: seq<Pin>, e: Item)
    requires Stands(s, i, e)
    ensures i < |s|
    ensures Element(s, i, st, pins) ==
      if ItemFits(st, e, pins) then Some((i + |ItemText(e) + e.seps|, ItemMeant(st, e))) else None
  {
    AfterText(s, i, e);
    if e.WaitItem? {
      WaitRead(s, i, e);
    }
    hide Strtol, SkipBlanks, SkipSeps, NumeralValue, NumeralText, GoodNumeral, Seps;
  }

  lemma ItemFound(s: bytes, i: nat, st: Scan, pins: seq<Pin>) returns (e: Item)
    requires i < |s| && Element(s, i, st, pins).Some?
    ensures Stands(s, i, e) && Element(s, i, st, pins).value.0 == i + |ItemText(e) + e.seps|
  {
    hide Strtol, SkipBlanks, SkipSeps;
    var end := Element(s, i, st, pins).value.0;
    var c := s[i];
    if c == 119 || c == 87 {
      e := WaitFound(s, i);
    } else {
      assert s[i..end] == [c] + s[i + 1..end];
      e := if c == 116 || c == 84 then TriggerItem(c, s[i + 1..end]) else PinItem(c, s[i + 1..end]);
    }
  }

  lemma WaitFound(s: bytes, i: nat) returns (e: Item)
    requires i < |s| && (s[i] == 119 || s[i] == 87) && 1 <= Strtol(s, SkipBlanks(s, i + 1)).0 <= 32
    ensures Stands(s, i, e) && SkipSeps(s, Strtol(s, SkipBlanks(s, i + 1)).1) == i + |ItemText(e) + e.seps|
  {
    hide *;
    SkipTwice(s, i + 1);
    var m := Strtol(s, i + 1).1;
    SomeNumber(s, i + 1);
    var n := NumeralFound(s, i + 1);
    NumeralRead(s, i + 1, n);
    e := WaitItem(s[i], n, s[m..SkipSeps(s, m)]);
    WaitStands(s, i, n, m);
  }

  lemma SomeNumber(s: bytes, i: nat)
    requires i <= |s| && Strtol(s, i).0 != 0
    ensures Strtol(s, i).1 > i
  {
  }

  lemma WaitStands(s: bytes, i: nat, n: Numeral, m: nat)
    requires i < m <= |s| && (s[i] == 119 || s[i] == 87) && GoodNumeral(n) && 1 <= NumeralValue(n) <= 32
    requires s[i + 1..m] == NumeralText(n) && (m < |s| ==> !IsDigit(s[m]))
    ensures var e := WaitItem(s[i], n, s[m..SkipSeps(s, m)]);
      Stands(s, i, e) && SkipSeps(s, m) == i + |ItemText(e) + e.seps|
  {
    hide SkipSeps, NumeralText, NumeralValue, GoodNumeral;
    Follows(s, i, m, SkipSeps(s, m));
  }

  lemma Follows(s: bytes, i: nat, m: nat, end: nat)
    requires i < m <= end <= |s|
    ensures s[i..end] == [s[i]] + s[i + 1..m] + s[m..end] && |[s[i]] + s[i + 1..m] + s[m..end]| == end - i
  {
  }

  // ---- whole lines ----

  function MeantFrom(st: Scan, es: seq<Item>): Scan {
    var settings := Settings(es);
    Scan(st.chars + Chars(es),
      if settings == [] then st.cycles else Cycles(es),
      if settings == [] then st.mode else Mode(es),
      st.modeSet || settings != [])
  }

  predicate XOnOutputs(chars: bytes, pins: seq<Pin>, from: nat) {
    forall i :: 0 <= i < |chars| && chars[i] == 88 ==> from + i < |pins| && pins[from + i].kind == Output
  }

  predicate FitsFrom(st: Scan, es: seq<Item>, pins: seq<Pin>) {
    && |st.chars| + |Chars(es)| == |pins| && |Settings(es)| + (if st.modeSet then 1 else 0) <= 1
    && XOnOutputs(Chars(es), pins, |st.chars|)
  }

  lemma TextStarts(es: seq<Item>)
    requires GoodLine(es) && es != []
    ensures LineText(es) != [] && !IsSep(LineText(es)[0])
    ensures IsDigit(LineText(es)[0]) ==> es[0].PinItem? && (es[0].c == 48 || es[0].c == 49)
  {
    assert GoodItem(es[0]);
  }

  lemma GoodRest(es: seq<Item>)
    requires GoodLine(es) && es != []
    ensures GoodItem(es[0]) && GoodLine(es[1..])
  {
    assert forall k :: 0 <= k < |es| - 1 ==> es[1..][k] == es[k + 1];
  }

  lemma FirstStands(s: bytes, i: nat, es: seq<Item>)
    requires GoodLine(es) && es != [] && i <= |s| && s[i..] == LineText(es)
    ensures Stands(s, i, es[0]) && s[i + |ItemText(es[0]) + es[0].seps|..] == LineText(es[1..])
  {
    GoodRest(es);
    var t, rest := ItemText(es[0]) + es[0].seps, LineText(es[1..]);
    assert s[i..] == t + rest;
    var next := i + |t|;
    assert s[i..next] == s[i..][..|t|] == t && s[next..] == s[i..][|t|..] == rest;
    if es[1..] != [] {
      TextStarts(es[1..]);
      assert s[next] == rest[0];
      assert es[1..][0] == es[1];
    }
  }

  lemma FitsStep(st: Scan, es: seq<Item>, pins: seq<Pin>)
    requires es != [] && GoodItem(es[0])
    ensures FitsFrom(st, es, pins) <==> ItemFits(st, es[0], pins) && FitsFrom(ItemMeant(st, es[0]), es[1..], pins)
    ensures FitsFrom(st, es, pins) ==> MeantFrom(st, es) == MeantFrom(ItemMeant(st, es[0]), es[1..])
    ensures ItemFits(st, es[0], pins) && |st.chars| <= |pins| ==> |ItemMeant(st, es[0]).chars| <= |pins|
  {
    hide *;
    FirstItem(es);
    if es[0].PinItem? {
      FitsPin(st, es, es[1..], pins);
    } else {
      FitsSetting(st, es, es[1..], pins);
    }
  }

  lemma FirstItem(es: seq<Item>)
    requires es != [] && GoodItem(es[0])
    ensures es[0].PinItem? ==>
      && (es[0].c >= 88 <==> es[0].c == 88 || es[0].c == 120)
      && Chars(es) == [if es[0].c == 120 then 88 else es[0].c] + Chars(es[1..]) && Settings(es) == Settings(es[1..])
    ensures !es[0].PinItem? ==> Chars(es) == Chars(es[1..]) && Settings(es) == [es[0]] + Settings(es[1..])
  {
    hide GoodNumeral, NumeralValue, Seps;
  }

  lemma FitsPin(st: Scan, es: seq<Item>, rest: seq<Item>, pins: seq<Pin>)
    requires es != [] && es[0].PinItem? && (es[0].c >= 88 <==> es[0].c == 88 || es[0].c == 120)
    requires Chars(es) == [if es[0].c == 120 then 88 else es[0].c] + Chars(rest) && Settings(es) == Settings(rest)
    ensures FitsFrom(st, es, pins) <==> ItemFits(st, es[0], pins) && FitsFrom(ItemMeant(st, es[0]), rest, pins)
    ensures MeantFrom(st, es) == MeantFrom(ItemMeant(st, es[0]), rest)
    ensures ItemFits(st, es[0], pins) ==> |ItemMeant(st, es[0]).chars| <= |pins|
  {
    hide Chars, Settings, XOnOutputs;
    var c: byte := if es[0].c == 120 then 88 else es[0].c;
    XFirst(c, Chars(rest), pins, |st.chars|);
    Assoc(st.chars, [c], Chars(rest));
  }

  lemma FitsSetting(st: Scan, es: seq<Item>, rest: seq<Item>, pins: seq<Pin>)
    requires es != [] && !es[0].PinItem? && Chars(es) == Chars(rest) && Settings(es) == [es[0]] + Settings(rest)
    ensures FitsFrom(st, es, pins) <==> ItemFits(st, es[0], pins) && FitsFrom(ItemMeant(st, es[0]), rest, pins)
    ensures FitsFrom(st, es, pins) ==> MeantFrom(st, es) == MeantFrom(ItemMeant(st, es[0]), rest)
    ensures |ItemMeant(st, es[0]).chars| == |st.chars|
  {
    hide Chars, Settings, XOnOutputs, NumeralValue;
    assert FitsFrom(st, es, pins) ==> Settings(rest) == [];
  }

  lemma XFirst(c: byte, rest: bytes, pins: seq<Pin>, from: nat)
    ensures XOnOutputs([c] + rest, pins, from) <==>
      (c == 88 ==> from < |pins| && pins[from].kind == Output) && XOnOutputs(rest, pins, from + 1)
  {
    var all := [c] + rest;
    if XOnOutputs(all, pins, from) {
      assert all[0] == 88 ==> pins[from + 0].kind == Output;
      assert forall i :: 0 <= i < |rest| ==> rest[i] == all[i + 1];
    }
    assert forall i :: 0 < i < |all| ==> all[i] == rest[i - 1];
  }

  /** A line of the grammar is accepted exactly when it fits the pins, and it is read as what it means. */
  lemma {:induction false} LineRead(s: bytes, i: nat, st: Scan, pins: seq<Pin>, es: seq<Item>)
    requires GoodLine(es) && i <= |s| && s[i..] == LineText(es) && |st.chars| <= |pins|
    ensures ScanLine(s, i, st, pins) == if FitsFrom(st, es, pins) then Some(MeantFrom(st, es)) else None
    decreases |es|
  {
    hide *;
    if es == [] {
      LineOver(s, i, st, pins);
    } else {
      FirstStands(s, i, es);
      ItemRead(s, i, st, pins, es[0]);
      ScanStep(s, i, st, pins);
      GoodRest(es);
      FitsStep(st, es, pins);
      if ItemFits(st, es[0], pins) {
        LineRead(s, i + |ItemText(es[0]) + es[0].seps|, ItemMeant(st, es[0]), pins, es[1..]);
      }
    }
  }

  lemma LineOver(s: bytes, i: nat, st: Scan, pins: seq<Pin>)
    requires i <= |s| && s[i..] == LineText([]) && |st.chars| <= |pins|
    ensures ScanLine(s, i, st, pins) == if FitsFrom(st, [], pins) then Some(MeantFrom(st, [])) else None
  {
    assert |s[i..]| == 0;
    assert st.chars + [] == st.chars;
  }

  /** A line that is accepted is one of the grammar. */
  lemma {:induction false} LineFound(s: bytes, i: nat, st: Scan, pins: seq<Pin>) returns (es: seq<Item>)
    requires i <= |s| && ScanLine(s, i, st, pins).Some?
    ensures GoodLine(es) && s[i..] == LineText(es)
    decreases |s| - i
  {
    hide Element;
    if i == |s| {
      es := [];
    } else {
      var e := ItemFound(s, i, st, pins);
      var next := Element(s, i, st, pins).value;
      var rest := LineFound(s, next.0, next.1, pins);
      es := [e] + rest;
      GoodFirst(s, i, e, rest);
    }
  }

  lemma GoodFirst(s: bytes, i: nat, e: Item, rest: seq<Item>)
    requires Stands(s, i, e) && GoodLine(rest) && s[i + |ItemText(e) + e.seps|..] == LineText(rest)
    ensures GoodLine([e] + rest) && s[i..] == LineText([e] + rest)
  {
    var next := i + |ItemText(e) + e.seps|;
    assert s[i..] == s[i..next] + s[next..];
    assert ([e] + rest)[1..] == rest;
    if rest != [] {
      assert GoodItem(rest[0]);
      assert s[next] == LineText(rest)[0];
    }
  }

  /** The scanner accepts exactly the lines of the grammar that fit the pins, and reads them as what they mean. */
  lemma LineIff(s: bytes, pins: seq<Pin>)
    ensures ScanLine(s, 0, START, pins).Some? <==> exists es :: Spells(s, es) && Fits(es, pins)
    ensures forall es :: Spells(s, es) && Fits(es, pins) ==>
      ScanLine(s, 0, START, pins) == Some(Scan(Chars(es), Cycles(es), Mode(es), Settings(es) != []))
  {
    hide ScanLine, GoodLine, LineText, Chars, Settings;
    assert s[0..] == s;
    forall es | Spells(s, es)
      ensures ScanLine(s, 0, START, pins) == if Fits(es, pins) then Some(MeantFrom(START, es)) else None
      ensures Fits(es, pins) ==> MeantFrom(START, es) == Scan(Chars(es), Cycles(es), Mode(es), Settings(es) != [])
    {
      LineRead(s, 0, START, pins, es);
      FitsWhole(es, pins);
    }
    if ScanLine(s, 0, START, pins).Some? {
      var es := LineFound(s, 0, START, pins);
      assert Spells(s, es);
    }
  }

  lemma FitsWhole(es: seq<Item>, pins: seq<Pin>)
    ensures Fits(es, pins) <==> FitsFrom(START, es, pins)
    ensures MeantFrom(START, es) == Scan(Chars(es), Cycles(es), Mode(es), Settings(es) != [])
  {
    hide Chars, Settings, NumeralValue;
    assert [] + Chars(es) == Chars(es);
  }
}
