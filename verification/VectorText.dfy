/**
 * The text of pin definitions and vector lines, written down as a grammar with its leniences, and what such text
 * means. None of it refers to the tokenizer or the parsers.
 */
module VectorText {
  import opened Bytes

  const PINS: nat := 24            // MAX_INPUT_OUTPUT_SIZE

  datatype Kind = Input | Output
  datatype Pin = Pin(kind: Kind, no: nat)

  predicate AllDigits(d: bytes) {
    forall i :: 0 <= i < |d| ==> 48 <= d[i] <= 57
  }

  function Decimal(d: bytes): (v: int)
    ensures AllDigits(d) ==> v >= 0
  {
    if d == [] then 0 else 10 * Decimal(d[..|d| - 1]) + ((d[|d| - 1] as int) - 48)
  }

  /** What strtol takes for a number: white space, a sign and at least one digit. */
  datatype Numeral = Numeral(space: bytes, sign: bytes, digits: bytes)

  predicate GoodNumeral(n: Numeral) {
    && (forall i :: 0 <= i < |n.space| ==> n.space[i] == 32 || 9 <= n.space[i] <= 13)
    && (n.sign == [] || n.sign == [43] || n.sign == [45])
    && n.digits != [] && AllDigits(n.digits)
  }

  function NumeralText(n: Numeral): bytes {
    n.space + n.sign + n.digits
  }

  function NumeralValue(n: Numeral): int {
    if n.sign == [45] then -Decimal(n.digits) else Decimal(n.digits)
  }

  // ---- a pin definition ----

  /** Blanks, tabs and commas. */
  predicate Seps(s: bytes) {
    forall i :: 0 <= i < |s| ==> s[i] == 32 || s[i] == 9 || s[i] == 44
  }

  predicate Word(s: bytes) {
    s != [] && forall i :: 0 <= i < |s| ==> s[i] != 32 && s[i] != 9 && s[i] != 44
  }

  function Join(words: seq<bytes>, gaps: seq<bytes>): bytes
    requires |words| == |gaps| + 1
  {
    if gaps == [] then words[0] else words[0] + gaps[0] + Join(words[1..], gaps[1..])
  }

  /** The line is these words with these separators between them. */
  predicate Splits(s: bytes, words: seq<bytes>, gaps: seq<bytes>) {
    && |words| == |gaps| + 1 && s == Join(words, gaps)
    && (forall i :: 0 <= i < |words| ==> Word(words[i]))
    && (forall i :: 0 <= i < |gaps| ==> gaps[i] != [] && Seps(gaps[i]))
  }

  /** Lenience: a letter alone is pin 0. */
  datatype PinWord = PinWord(letter: byte, number: Option<Numeral>)

  function PinText(w: PinWord): (r: bytes)
    ensures r != []
  {
    [w.letter] + match w.number case None => [] case Some(n) => NumeralText(n)
  }

  /** Limit: no minus signs. */
  predicate GoodPin(w: PinWord) {
    && Word(PinText(w)) && w.letter != 45
    && match w.number case None => true case Some(n) => GoodNumeral(n) && n.sign != [45]
  }

  /** Lenience: any first letter but A makes an output. */
  function PinMeant(w: PinWord): Pin
    requires GoodPin(w)
  {
    Pin(if w.letter == 65 then Input else Output, match w.number case None => 0 case Some(n) => Decimal(n.digits))
  }

  function PinTexts(ws: seq<PinWord>): (r: seq<bytes>)
    ensures |r| == |ws| && forall i :: 0 <= i < |r| ==> r[i] == PinText(ws[i])
  {
    seq(|ws|, i requires 0 <= i < |ws| => PinText(ws[i]))
  }

  /** The line is a definition with these words. */
  predicate Defines(s: bytes, ws: seq<PinWord>, gaps: seq<bytes>) {
    Splits(s, PinTexts(ws), gaps) && forall i :: 0 <= i < |ws| ==> GoodPin(ws[i])
  }

  function PinsMeant(ws: seq<PinWord>): (r: seq<Pin>)
    requires forall i :: 0 <= i < |ws| ==> GoodPin(ws[i])
    ensures |r| == |ws| && forall i :: 0 <= i < |r| ==> r[i] == PinMeant(ws[i])
  {
    seq(|ws|, i requires 0 <= i < |ws| => PinMeant(ws[i]))
  }

  /** The usual way to write a pin: A or Q and its number. */
  function PlainWord(p: Pin): PinWord
    requires p.no < PINS
  {
    PinWord(if p.kind == Input then 65 else 81,
      Some(Numeral([], [], if p.no < 10 then [48 + p.no] else [48 + p.no / 10, 48 + p.no % 10])))
  }

  // ---- a vector line ----

  /** A pin character, a wait of some cycles or a trigger, each with the separators after it. */
  datatype Item =
    | PinItem(c: byte, seps: bytes)
    | WaitItem(letter: byte, number: Numeral, seps: bytes)
    | TriggerItem(letter: byte, seps: bytes)

  predicate GoodItem(e: Item) {
    && Seps(e.seps)
    && match e
       case PinItem(c, _) => c == 48 || c == 49 || c == 88 || c == 120
       case WaitItem(letter, n, _) => (letter == 119 || letter == 87) && GoodNumeral(n) && 1 <= NumeralValue(n) <= 32
       case TriggerItem(letter, _) => letter == 116 || letter == 84
  }

  function ItemText(e: Item): bytes {
    match e
    case PinItem(c, _) => [c]
    case WaitItem(letter, n, _) => [letter] + NumeralText(n)
    case TriggerItem(letter, _) => [letter]
  }

  function LineText(es: seq<Item>): bytes {
    if es == [] then [] else ItemText(es[0]) + es[0].seps + LineText(es[1..])
  }

  /** A wait is set off from a digit behind it. */
  predicate SetOff(es: seq<Item>) {
    forall i :: 0 <= i < |es| - 1 && es[i].WaitItem? && es[i].seps == [] ==>
      es[i + 1].PinItem? ==> es[i + 1].c != 48 && es[i + 1].c != 49
  }

  predicate GoodLine(es: seq<Item>) {
    (forall i :: 0 <= i < |es| ==> GoodItem(es[i])) && SetOff(es)
  }

  predicate Spells(s: bytes, es: seq<Item>) {
    GoodLine(es) && s == LineText(es)
  }

  /** The pin characters of a line, x as X. */
  function Chars(es: seq<Item>): bytes {
    if es == [] then []
    else if es[0].PinItem? then [if es[0].c == 120 then 88 else es[0].c] + Chars(es[1..])
    else Chars(es[1..])
  }

  function Settings(es: seq<Item>): seq<Item> {
    if es == [] then [] else (if es[0].PinItem? then [] else [es[0]]) + Settings(es[1..])
  }

  /** One character for every pin, X on outputs only, and at most one setting. */
  predicate Fits(es: seq<Item>, pins: seq<Pin>) {
    && |Chars(es)| == |pins| && |Settings(es)| <= 1
    && forall i :: 0 <= i < |pins| && Chars(es)[i] == 88 ==> pins[i].kind == Output
  }

  function Cycles(es: seq<Item>): int {
    var settings := Settings(es);
    if settings == [] then 1 else if settings[0].WaitItem? then NumeralValue(settings[0].number) else 32
  }

  /** 1 for a trigger. */
  function Mode(es: seq<Item>): nat {
    var settings := Settings(es);
    if settings != [] && settings[0].TriggerItem? then 1 else 0
  }
}
