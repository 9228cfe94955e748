/**
 * Test-vector text and its rendering: the pin definition, the vector lines, and the strings printed for inputs and
 * expected outputs (user/confrd/parser_vec.c, parser_common.c).
 */
module VectorLines {
  import opened Bytes
  import opened VectorText
  import opened VectorScan

  const MAX_PINS: nat := 48

  /** Three bytes, the lowest pins in the last. */
  predicate IsMask(m: seq<bv8>) {
    |m| == 3
  }

  /** 1 << k in a byte. */
  function One(k: nat): bv8
    requires k < 8
  {
    match k
    case 0 => 0x01
    case 1 => 0x02
    case 2 => 0x04
    case 3 => 0x08
    case 4 => 0x10
    case 5 => 0x20
    case 6 => 0x40
    case _ => 0x80
  }

  predicate On(b: bv8, k: nat)
    requires k < 8
  {
    b & One(k) != 0
  }

  /** Pin `p` of a mask: byte 2 - p / 8, bit p % 8. */
  predicate Has(m: seq<bv8>, p: nat)
    requires IsMask(m) && p < PINS
  {
    On(m[2 - p / 8], p % 8)
  }

  function Set(m: seq<bv8>, p: nat): (r: seq<bv8>)
    requires IsMask(m) && p < PINS
    ensures IsMask(r)
  {
    var bidx := 2 - p / 8;
    m[bidx := m[bidx] | One(p % 8)]
  }

  lemma OrBit(b: bv8, j: nat, k: nat)
    requires j < 8 && k < 8
    ensures On(b | One(j), k) <==> j == k || On(b, k)
  {
  }

  lemma SetHas(m: seq<bv8>, p: nat, q: nat)
    requires IsMask(m) && p < PINS && q < PINS
    ensures Has(Set(m, p), q) <==> (q == p || Has(m, q))
  {
    hide One, On;
    if p / 8 == q / 8 {
      OrBit(m[2 - p / 8], p % 8, q % 8);
    }
  }

  const ZERO: seq<bv8> := [0, 0, 0]

  lemma ZeroHas(p: nat)
    requires p < PINS
    ensures !Has(ZERO, p)
  {
  }

  // ---- the pin definition ----

  /** tokenizer: None (-1) as soon as there are `max` tokens. */
  method Tokenizer(s: bytes, max: nat) returns (r: Option<seq<bytes>>)
    requires Ended(s) && max > 1
    ensures r == if |Words(s)| < max then Some(Words(s)) else None
  {
    hide Words, Ended;
    var tokens: seq<bytes> := [];
    var start: nat, i: nat := 0, 0;
    assert s[0..] == s;
    EndedLast(s);
    while i < |s|
      invariant start <= i <= |s| && start < |s| && |tokens| + 1 < max
      invariant Ended(s[start..]) && Words(s) == tokens + Words(s[start..])
      invariant forall k :: start <= k < i ==> !IsSep(s[k])
    {
      if IsSep(s[i]) {
        WordAt(s, start, i);
        tokens := tokens + [s[start..i]];
        ghost var at := i;
        i := i + 1;
        while i < |s| && IsSep(s[i])
          invariant i <= |s| && SkipSeps(s, i) == SkipSeps(s, at)
        {
          i := i + 1;
        }
        start := i;
        if |tokens| + 1 == max {
          return None;
        }
        i := i + 1;
      } else {
        i := i + 1;
      }
    }
    LastWord(s, start);
    return Some(tokens + [s[start..]]);
  }

  /** A mask with exactly the declared pins of a kind. */
  predicate Declares(m: seq<bv8>, pins: seq<Pin>, kind: Kind) {
    IsMask(m) && forall p :: 0 <= p < PINS ==> (Has(m, p) <==> Pin(kind, p) in pins)
  }

  /** m[2 - p / 8] |= 1 << p % 8 */
  method OrPin(m: array<bv8>, p: nat)
    requires m.Length == 3 && p < PINS
    modifies m
    ensures m[..] == Set(old(m[..]), p)
    ensures forall q :: 0 <= q < PINS ==> (Has(m[..], q) <==> q == p || Has(old(m[..]), q))
  {
    var bidx, shiftl := 2 - p / 8, p % 8;
    forall q | 0 <= q < PINS
      ensures Has(Set(m[..], p), q) <==> q == p || Has(m[..], q)
    {
      SetHas(m[..], p, q);
    }
    m[bidx] := m[bidx] | One(shiftl);
  }

  // ---- the parser's state ----

  class ParserInfo {
    const pins: array<Pin>
    var pinCount: nat
    const bitmask: array<bv8>
    const clockMask: array<bv8>
    const triggerMask: array<bv8>

    ghost predicate Valid()
      reads this
    {
      && pins.Length == MAX_PINS && pinCount <= MAX_PINS
      && bitmask.Length == 3 && clockMask.Length == 3 && triggerMask.Length == 3
      && bitmask != clockMask && bitmask != triggerMask && clockMask != triggerMask
    }

    ghost function Declared(): (r: seq<Pin>)
      requires Valid()
      reads this, pins
    {
      pins[..pinCount]
    }

    /** init_parserinfo */
    constructor ()
      ensures Valid() && Declared() == [] && Declares(bitmask[..], [], Output)
      ensures clockMask[..] == ZERO && triggerMask[..] == ZERO
      ensures fresh(pins) && fresh(bitmask) && fresh(clockMask) && fresh(triggerMask)
    {
      pins := new Pin[MAX_PINS](_ => Pin(Output, 0));
      pinCount := 0;
      bitmask := new bv8[3](_ => 0);
      clockMask := new bv8[3](_ => 0);
      triggerMask := new bv8[3](_ => 0);
      new;
      assert bitmask[..] == ZERO && clockMask[..] == ZERO && triggerMask[..] == ZERO;
      NothingDeclared();
    }

    /**
     * parse_line_pindef, once its chunk is allocated: the pins in the order of the line, and the output pins in
     * the bitmask. At most 47 pins fit on a line.
     */
    method ParsePindef(s: bytes) returns (rc: int)
      requires Valid() && Trimmed(s) && 45 !in s
      modifies this, pins, bitmask
      ensures Valid()
      ensures rc == 0 || rc == -1
      ensures rc == 0 <==> exists ws, gaps :: Defines(s, ws, gaps) && |ws| < 48 && InRange(PinsMeant(ws))
      ensures forall ws, gaps :: rc == 0 && Defines(s, ws, gaps) ==> Declared() == PinsMeant(ws)
      ensures InRange(Declared()) && (rc == 0 ==> Declares(bitmask[..], Declared(), Output))
    {
      hide Words, Defines, PinsOf, Declares;
      DefinitionIff(s);
      pinCount := 0;
      forall i | 0 <= i < 3 {
        bitmask[i] := 0;
      }
      assert bitmask[..] == ZERO;
      NothingDeclared();
      var found := Tokenizer(s, MAX_PINS);
      if found == None {
        return -1;
      }
      rc := AddPins(found.value);
    }

    /** The loop of parse_line_pindef. */
    method AddPins(tokens: seq<bytes>) returns (rc: int)
      requires Valid() && pinCount == 0 && Declares(bitmask[..], [], Output)
      requires |tokens| < MAX_PINS && Proper(tokens)
      modifies this, pins, bitmask
      ensures Valid()
      ensures rc == if PinsOf(tokens).Some? then 0 else -1
      ensures rc == 0 ==> Declared() == PinsOf(tokens).value
      ensures InRange(Declared()) && (rc == 0 ==> Declares(bitmask[..], Declared(), Output))
    {
      hide PinOf, Declares;
      var i := 0;
      assert pins[..0] == [];
      while i < |tokens|
        invariant 0 <= i <= |tokens| && pinCount == i && Valid()
        invariant forall k :: 0 <= k < i ==> PinOf(tokens[k]) == Some(pins[k])
        invariant InRange(pins[..i]) && Declares(bitmask[..], pins[..i], Output)
      {
        rc := AddPin(tokens[i]);
        if rc != 0 {
          assert PinsOf(tokens) == None;
          return -1;
        }
        i := i + 1;
      }
      assert pins[..i] == PinsOf(tokens).value;
      return 0;
    }

    /** One token of the pin definition. */
    method AddPin(token: bytes) returns (rc: int)
      requires Valid() && pinCount < MAX_PINS && token != [] && 45 !in token
      requires InRange(pins[..pinCount]) && Declares(bitmask[..], pins[..pinCount], Output)
      modifies this, pins, bitmask
      ensures Valid()
      ensures rc == if PinOf(token).Some? then 0 else -1
      ensures rc == 0 ==>
        pinCount == old(pinCount) + 1 && pins[..pinCount] == old(pins[..pinCount]) + [PinOf(token).value]
      ensures rc == 0 ==> Declares(bitmask[..], pins[..pinCount], Output)
      ensures InRange(pins[..pinCount])
    {
      hide Has;
      var kind := if token[0] == 65 then Input else Output;
      NoMinus(token, 1);
      var number := Strtol(token, 1);
      if number.1 != |token| {
        return -1;
      }
      var no := number.0;
      if no > 23 {
        return -1;
      }
      ghost var before := pins[..pinCount];
      if kind == Output {
        OrPin(bitmask, no);
      }
      pins[pinCount] := Pin(kind, no);
      pinCount := pinCount + 1;
      assert pins[..pinCount] == before + [Pin(kind, no)];
      return 0;
    }

    /** parse_line_clock, for pin numbers in range: the clocked inputs; an output pin is refused. */
    method ParseClock(s: bytes) returns (rc: int)
      requires Valid() && Trimmed(s) && 45 !in s
      requires forall i :: 0 <= i < |Words(s)| ==> Words(s)[i] != [] && Strtol(Words(s)[i], 1).0 < PINS
      modifies clockMask
      ensures Valid()
      ensures rc == 0 || rc == -1
      ensures rc == 0 <==> exists ws, gaps :: Defines(s, ws, gaps) && |ws| < 24 && OnlyKind(ws, Input)
      ensures forall ws, gaps :: rc == 0 && Defines(s, ws, gaps) ==> Declares(clockMask[..], PinsMeant(ws), Input)
      ensures rc != 0 ==> clockMask[..] == old(clockMask[..])
    {
      hide Words, Defines;
      NamesIff(s, Input);
      var found := ParseNamed(s, Input);
      if found == None {
        return -1;
      }
      Fill(clockMask, found.value);
      return 0;
    }

    /** parse_line_trgmask, likewise for outputs. */
    method ParseTrigger(s: bytes) returns (rc: int)
      requires Valid() && Trimmed(s) && 45 !in s
      requires forall i :: 0 <= i < |Words(s)| ==> Words(s)[i] != [] && Strtol(Words(s)[i], 1).0 < PINS
      modifies triggerMask
      ensures Valid()
      ensures rc == 0 || rc == -1
      ensures rc == 0 <==> exists ws, gaps :: Defines(s, ws, gaps) && |ws| < 24 && OnlyKind(ws, Output)
      ensures forall ws, gaps :: rc == 0 && Defines(s, ws, gaps) ==> Declares(triggerMask[..], PinsMeant(ws), Output)
      ensures rc != 0 ==> triggerMask[..] == old(triggerMask[..])
    {
      hide Words, Defines;
      NamesIff(s, Output);
      var found := ParseNamed(s, Output);
      if found == None {
        return -1;
      }
      Fill(triggerMask, found.value);
      return 0;
    }
  }

  method Fill(a: array<bv8>, m: seq<bv8>)
    requires a.Length == 3 && IsMask(m)
    modifies a
    ensures a[..] == m
  {
    forall k | 0 <= k < 3 {
      a[k] := m[k];
    }
    assert a[..] == m;
  }

  /** The loop of the two: pins of one kind as a mask. */
  method ParseNamed(s: bytes, kind: Kind) returns (r: Option<seq<bv8>>)
    requires Trimmed(s) && 45 !in s
    requires Proper(Words(s)) && forall i :: 0 <= i < |Words(s)| ==> Strtol(Words(s)[i], 1).0 < PINS
    ensures r.Some? <==> |Words(s)| < PINS && NamesOnly(Words(s), kind)
    ensures r.Some? ==> PinsOf(Words(s)).Some? && Declares(r.value, PinsOf(Words(s)).value, kind)
  {
    hide Words, Has;
    var found := Tokenizer(s, PINS);
    if found == None {
      return None;
    }
    var tokens := found.value;
    var payload := new bv8[3](_ => 0);
    assert payload[..] == ZERO;
    NothingDeclared();
    ghost var so: seq<Pin> := [];
    var i := 0;
    while i < |tokens|
      invariant 0 <= i <= |tokens| == |Words(s)| && |so| == i && fresh(payload) && payload.Length == 3
      invariant forall k :: 0 <= k < i ==> PinOf(tokens[k]) == Some(so[k]) && so[k].kind == kind
      invariant Declares(payload[..], so, kind)
    {
      if (tokens[i][0] == 65) != (kind == Input) {
        return None;
      }
      NoMinus(tokens[i], 1);
      var number := Strtol(tokens[i], 1);
      if number.1 != |tokens[i]| {
        return None;
      }
      OrPin(payload, number.0);
      so := so + [Pin(kind, number.0)];
      i := i + 1;
    }
    assert so == PinsOf(tokens).value;
    return Some(payload[..]);
  }

  lemma NothingDeclared()
    ensures Declares(ZERO, [], Input) && Declares(ZERO, [], Output)
  {
    forall p | 0 <= p < PINS
      ensures !Has(ZERO, p)
    {
      ZeroHas(p);
    }
  }

  // ---- a vector line ----

  datatype Vector = Vector(input: seq<bv8>, output: seq<bv8>, xmask: seq<bv8>, metadata2: nat)

  /** MD2_SET_CYCLES and MD2_SET_MODE, and what MD2_CYCLES and MD2_MODE read back. */
  function Metadata2(cycles: nat, mode: nat): (r: nat)
    requires 1 <= cycles <= 32 && mode < 2
    ensures r < 128 && r / 2 % 32 + 1 == cycles && r / 64 % 2 == mode
  {
    (cycles - 1) * 2 + mode * 64
  }

  /** The pins of a kind at which the line says `c` are exactly the pins of the mask. */
  ghost predicate Marks(m: seq<bv8>, pins: seq<Pin>, chars: bytes, kind: Kind, c: byte) {
    && IsMask(m) && |chars| <= |pins|
    && forall p :: 0 <= p < PINS ==> (Has(m, p) <==> Says(pins, chars, Pin(kind, p), c))
  }

  ghost predicate Says(pins: seq<Pin>, chars: bytes, pin: Pin, c: byte)
    requires |chars| <= |pins|
  {
    exists n :: 0 <= n < |chars| && pins[n] == pin && chars[n] == c
  }

  ghost predicate Encodes(v: Vector, pins: seq<Pin>, chars: bytes, cycles: int, mode: nat) {
    && Marks(v.input, pins, chars, Input, 49)
    && Marks(v.output, pins, chars, Output, 49)
    && Marks(v.xmask, pins, chars, Output, 88)
    && 1 <= cycles <= 32 && mode < 2 && v.metadata2 == Metadata2(cycles, mode)
  }

  lemma SaysNext(pins: seq<Pin>, chars: bytes, c: byte, pin: Pin, d: byte)
    requires |chars| < |pins|
    ensures Says(pins, chars + [c], pin, d) <==> Says(pins, chars, pin, d) || (pins[|chars|] == pin && c == d)
  {
    var n := |chars|;
    if Says(pins, chars, pin, d) {
      var k :| 0 <= k < n && pins[k] == pin && chars[k] == d;
      assert (chars + [c])[k] == d;
    }
    if pins[n] == pin && c == d {
      assert (chars + [c])[n] == d;
    }
  }

  /** A character that is not `d`, or of another kind of pin, leaves the mask as it should be. */
  lemma KeepMarks(m: seq<bv8>, pins: seq<Pin>, chars: bytes, kind: Kind, d: byte, c: byte)
    requires Marks(m, pins, chars, kind, d) && |chars| < |pins|
    requires c != d || pins[|chars|].kind != kind
    ensures Marks(m, pins, chars + [c], kind, d)
  {
    hide Has, Says;
    forall p | 0 <= p < PINS
      ensures Has(m, p) <==> Says(pins, chars + [c], Pin(kind, p), d)
    {
      SaysNext(pins, chars, c, Pin(kind, p), d);
    }
  }

  lemma AddMark(m: seq<bv8>, pins: seq<Pin>, chars: bytes, kind: Kind, d: byte)
    requires Marks(m, pins, chars, kind, d) && |chars| < |pins| && pins[|chars|].kind == kind && pins[|chars|].no < PINS
    ensures Marks(Set(m, pins[|chars|].no), pins, chars + [d], kind, d)
  {
    hide Has, Says, Set;
    var no := pins[|chars|].no;
    forall p | 0 <= p < PINS
      ensures Has(Set(m, no), p) <==> Says(pins, chars + [d], Pin(kind, p), d)
    {
      SaysNext(pins, chars, d, Pin(kind, p), d);
      SetHas(m, no, p);
    }
  }

  /** The bit arrays of the staged request. */
  class TestVector {
    const input: array<bv8>
    const output: array<bv8>
    const xmask: array<bv8>

    ghost predicate Valid() {
      && input.Length == 3 && output.Length == 3 && xmask.Length == 3
      && input != output && input != xmask && output != xmask
    }

    ghost predicate Marked(pins: seq<Pin>, chars: bytes)
      reads input, output, xmask
    {
      && Valid()
      && Marks(input[..], pins, chars, Input, 49)
      && Marks(output[..], pins, chars, Output, 49)
      && Marks(xmask[..], pins, chars, Output, 88)
    }

    constructor (pins: seq<Pin>)
      ensures Marked(pins, []) && fresh(input) && fresh(output) && fresh(xmask)
    {
      input := new bv8[3](_ => 0);
      output := new bv8[3](_ => 0);
      xmask := new bv8[3](_ => 0);
      new;
      assert input[..] == ZERO && output[..] == ZERO && xmask[..] == ZERO;
      forall p | 0 <= p < PINS
        ensures !Has(ZERO, p)
      {
        ZeroHas(p);
      }
    }

    /** The bit a character sets: a 1 in the mask of the pin's kind, an X in the don't-care mask. */
    method Mark(pin: Pin, c: byte, ghost pins: seq<Pin>, ghost chars: bytes)
      requires Marked(pins, chars) && |chars| < |pins| && pins[|chars|] == pin && pin.no < PINS
      requires c == 48 || c == 49 || (c == 88 && pin.kind == Output)
      modifies input, output, xmask
      ensures Marked(pins, chars + [c])
    {
      hide Marks, Set, Has;
      if c == 49 && pin.kind == Input {
        AddMark(input[..], pins, chars, Input, 49);
      } else {
        KeepMarks(input[..], pins, chars, Input, 49, c);
      }
      if c == 49 && pin.kind == Output {
        AddMark(output[..], pins, chars, Output, 49);
      } else {
        KeepMarks(output[..], pins, chars, Output, 49, c);
      }
      if c == 88 {
        AddMark(xmask[..], pins, chars, Output, 88);
      } else {
        KeepMarks(xmask[..], pins, chars, Output, 88, c);
      }
      if c == 49 {
        if pin.kind == Input {
          OrPin(input, pin.no);
        } else {
          OrPin(output, pin.no);
        }
      } else if c == 88 {
        OrPin(xmask, pin.no);
      }
    }
  }

  /** parse_line_vectors, once its chunk is allocated and when the line is no dot command. */
  method ParseVector(s: bytes, pins: seq<Pin>) returns (v: Option<Vector>)
    requires InRange(pins)
    ensures v.Some? <==> exists es :: Spells(s, es) && Fits(es, pins)
    ensures forall es :: Spells(s, es) && Fits(es, pins) ==>
      Encodes(v.value, pins, Chars(es), Cycles(es), Mode(es))
  {
    hide Strtol, SkipSeps, SkipBlanks, ScanLine, Marks, Has, Spells, Fits;
    LineIff(s, pins);
    var tv := new TestVector(pins);
    var i := 0;
    var st := START;
    while i < |s|
      invariant 0 <= i <= |s| && fresh(tv) && fresh(tv.input) && fresh(tv.output) && fresh(tv.xmask)
      invariant |st.chars| <= |pins| && tv.Marked(pins, st.chars) && 1 <= st.cycles <= 32 && st.mode < 2
      invariant ScanLine(s, i, st, pins) == ScanLine(s, 0, START, pins)
      decreases |s| - i
    {
      ScanStep(s, i, st, pins);
      ghost var was := st;
      if s[i] == 119 || s[i] == 87 {
        if st.modeSet {
          return None;
        }
        var number := Strtol(s, SkipBlanks(s, i + 1));
        if number.0 < 1 || number.0 > 32 {
          return None;
        }
        st := st.(cycles := number.0, mode := 0, modeSet := true);
        i := number.1;
      } else if s[i] == 116 || s[i] == 84 {
        if st.modeSet {
          return None;
        }
        st := st.(cycles := 32, mode := 1, modeSet := true);
        i := i + 1;
      } else {
        if s[i] !in {48, 49, 88, 120} || |st.chars| >= |pins| {
          return None;
        }
        var c := if s[i] == 120 then 88 else s[i];
        var pin := pins[|st.chars|];
        if c == 88 && pin.kind == Input {
          return None;
        }
        tv.Mark(pin, c, pins, st.chars);
        st := st.(chars := st.chars + [c]);
        i := i + 1;
      }
      i := SkipSeps(s, i);
    }
    ScanEnd(s, st, pins);
    if |st.chars| < |pins| {
      return None;
    }
    return Some(Vector(tv.input[..], tv.output[..], tv.xmask[..], Metadata2(st.cycles, st.mode)));
  }

  // ---- rendering ----

  lemma NextMask(k: nat)
    requires k < 8
    ensures One(k) >> 1 == (if k == 0 then 0 else One(k - 1)) && One(k) != 0
  {
  }

  lemma TopMask()
    ensures One(7) == 0x80
  {
  }

  lemma TestBit(b: bv8, k: nat)
    requires k < 8
    ensures b & One(k) != 0 <==> On(b, k)
  {
  }

  lemma UndeclaredBit(x: bv8, d: bv8, k: nat)
    requires k < 8
    ensures (x | !d) & One(k) != 0 <==> On(x, k) || !On(d, k)
  {
  }

  /** The character printed for pin `p` of an input vector: C for a clocked pin. */
  function InputChar(n: seq<bv8>, c: seq<bv8>, p: nat): byte
    requires IsMask(n) && IsMask(c) && p < PINS
  {
    if Has(c, p) then 67 else if Has(n, p) then 49 else 48
  }

  function InputBit(n: bv8, c: bv8, k: nat): byte
    requires k < 8
  {
    if On(c, k) then 67 else if On(n, k) then 49 else 48
  }

  /** The inner loop of h_input: the eight bits of a byte, the highest first. */
  method InputByte(n: bv8, c: bv8) returns (r: bytes)
    ensures |r| == 8 && forall j :: 0 <= j < 8 ==> r[j] == InputBit(n, c, 7 - j)
  {
    hide One, On;
    r := [];
    var mask: bv8 := 0x80;
    ghost var k: int := 7;
    TopMask();
    while mask != 0
      invariant -1 <= k <= 7 && mask == (if k < 0 then 0 else One(k)) && |r| == 7 - k
      invariant forall j :: 0 <= j < |r| ==> r[j] == InputBit(n, c, 7 - j)
      decreases k
    {
      TestBit(c, k);
      TestBit(n, k);
      r := r + [if c & mask != 0 then 67 else if n & mask != 0 then 49 else 48];
      NextMask(k);
      mask := mask >> 1;
      k := k - 1;
    }
    NonZero(k);
  }

  /** h_input: pin `p` is at position 23 - p. */
  method HInput(n: seq<bv8>, c: seq<bv8>) returns (buf: bytes)
    requires IsMask(n) && IsMask(c)
    ensures |buf| == PINS && forall j :: 0 <= j < PINS ==> buf[j] == InputChar(n, c, 23 - j)
  {
    hide One, On;
    buf := [];
    var i := 0;
    while i < 3
      invariant 0 <= i <= 3 && |buf| == 8 * i
      invariant forall j :: 0 <= j < |buf| ==> buf[j] == InputChar(n, c, 23 - j)
    {
      var part := InputByte(n[i], c[i]);
      forall j | 0 <= j < 8
        ensures part[j] == InputChar(n, c, 23 - (8 * i + j))
      {
        assert 2 - (23 - (8 * i + j)) / 8 == i && (23 - (8 * i + j)) % 8 == 7 - j;
      }
      buf := buf + part;
      i := i + 1;
    }
  }

  lemma NonZero(k: int)
    requires -1 <= k < 8 && (if k < 0 then 0 else One(k)) == 0
    ensures k == -1
  {
  }

  /** The character printed for pin `p` of the expected outputs: X for don't-care and for pins not declared. */
  function ExpectedChar(n: seq<bv8>, x: seq<bv8>, declared: seq<bv8>, p: nat): byte
    requires IsMask(n) && IsMask(x) && IsMask(declared) && p < PINS
  {
    if Has(x, p) || !Has(declared, p) then 88 else if Has(n, p) then 49 else 48
  }

  function ExpectedBit(n: bv8, x: bv8, x2: bv8, k: nat): byte
    requires k < 8
  {
    if On(x, k) || !On(x2, k) then 88 else if On(n, k) then 49 else 48
  }

  /** The inner loop of h_expected. */
  method ExpectedByte(n: bv8, x: bv8, x2: bv8) returns (r: bytes)
    ensures |r| == 8 && forall j :: 0 <= j < 8 ==> r[j] == ExpectedBit(n, x, x2, 7 - j)
  {
    hide One, On;
    r := [];
    var mask: bv8 := 0x80;
    ghost var k: int := 7;
    TopMask();
    while mask != 0
      invariant -1 <= k <= 7 && mask == (if k < 0 then 0 else One(k)) && |r| == 7 - k
      invariant forall j :: 0 <= j < |r| ==> r[j] == ExpectedBit(n, x, x2, 7 - j)
      decreases k
    {
      UndeclaredBit(x, x2, k);
      TestBit(n, k);
      r := r + [if (x | !x2) & mask != 0 then 88 else if n & mask != 0 then 49 else 48];
      NextMask(k);
      mask := mask >> 1;
      k := k - 1;
    }
    NonZero(k);
  }

  /** h_expected */
  method HExpected(n: seq<bv8>, x: seq<bv8>, x2: seq<bv8>) returns (buf: bytes)
    requires IsMask(n) && IsMask(x) && IsMask(x2)
    ensures |buf| == PINS && forall j :: 0 <= j < PINS ==> buf[j] == ExpectedChar(n, x, x2, 23 - j)
  {
    hide One, On;
    buf := [];
    var i := 0;
    while i < 3
      invariant 0 <= i <= 3 && |buf| == 8 * i
      invariant forall j :: 0 <= j < |buf| ==> buf[j] == ExpectedChar(n, x, x2, 23 - j)
    {
      var part := ExpectedByte(n[i], x[i], x2[i]);
      forall j | 0 <= j < 8
        ensures part[j] == ExpectedChar(n, x, x2, 23 - (8 * i + j))
      {
        assert 2 - (23 - (8 * i + j)) / 8 == i && (23 - (8 * i + j)) % 8 == 7 - j;
      }
      buf := buf + part;
      i := i + 1;
    }
  }

  // ---- the round trip ----

  predicate DistinctPins(pins: seq<Pin>) {
    forall i, j :: 0 <= i < j < |pins| ==> pins[i] != pins[j]
  }

  /** For pins declared once, a mask bit is set exactly when the pin's own character says so. */
  lemma OwnCharacter(m: seq<bv8>, pins: seq<Pin>, chars: bytes, n: nat, c: byte)
    requires |chars| == |pins| && n < |pins| && DistinctPins(pins) && pins[n].no < PINS
    requires Marks(m, pins, chars, pins[n].kind, c)
    ensures Has(m, pins[n].no) <==> chars[n] == c
  {
    hide Has;
    assert pins[n] == Pin(pins[n].kind, pins[n].no);
    if chars[n] == c {
      assert Says(pins, chars, pins[n], c);
    }
  }

  /** What the device's answers are shown as: each declared pin has the character the line gave for it. */
  ghost predicate Shown(inputs: bytes, expected: bytes, pins: seq<Pin>, chars: bytes, clock: seq<bv8>)
    requires |inputs| == PINS && |expected| == PINS && InRange(pins) && IsMask(clock) && |chars| == |pins|
  {
    forall n :: 0 <= n < |pins| ==>
      if pins[n].kind == Output then expected[23 - pins[n].no] == chars[n]
      else inputs[23 - pins[n].no] == if Has(clock, pins[n].no) then 67 else chars[n]
  }

  /** Every character of a line is 0, 1 or X. */
  lemma {:induction false} CharsAre(es: seq<Item>)
    requires GoodLine(es)
    ensures forall n :: 0 <= n < |Chars(es)| ==> Chars(es)[n] == 48 || Chars(es)[n] == 49 || Chars(es)[n] == 88
  {
    if es != [] {
      GoodRest(es);
      CharsAre(es[1..]);
    }
  }

  /**
   * Parsing a line and printing what was parsed: for every declaration of distinct pins and every accepted line,
   * each declared pin shows, at position 23 minus its number, the character the line gave for it; clocked inputs
   * show C and outputs that are not declared show X.
   */
  method ShowLine(s: bytes, pins: seq<Pin>, bitmask: seq<bv8>, clock: seq<bv8>)
    returns (inputs: bytes, expected: bytes, ok: bool)
    requires InRange(pins) && DistinctPins(pins) && Declares(bitmask, pins, Output) && IsMask(clock)
    ensures ok <==> exists es :: Spells(s, es) && Fits(es, pins)
    ensures ok ==> |inputs| == PINS && |expected| == PINS
    ensures ok ==> forall es :: Spells(s, es) && Fits(es, pins) ==> Shown(inputs, expected, pins, Chars(es), clock)
    ensures ok ==> forall p :: 0 <= p < PINS && Pin(Output, p) !in pins ==> expected[23 - p] == 88
  {
    hide On, Says, Spells, Fits, Marks;
    inputs, expected := [], [];
    var v := ParseVector(s, pins);
    if v == None {
      ok := false;
      return;
    }
    ok := true;
    EncodesMasks(s, v.value, pins);
    inputs := HInput(v.value.input, clock);
    expected := HExpected(v.value.output, v.value.xmask, bitmask);
    forall p | 0 <= p < PINS && Pin(Output, p) !in pins
      ensures expected[23 - p] == 88
    {
      assert !Has(bitmask, p) && 23 - (23 - p) == p;
    }
    forall es | Spells(s, es) && Fits(es, pins)
      ensures |Chars(es)| == |pins| && Shown(inputs, expected, pins, Chars(es), clock)
    {
      FitsChars(s, es, pins);
      ShownIs(v.value, pins, bitmask, clock, Chars(es), Cycles(es), Mode(es), inputs, expected);
    }
  }

  lemma EncodesMasks(s: bytes, v: Vector, pins: seq<Pin>)
    requires exists es :: Spells(s, es) && Fits(es, pins)
    requires forall es :: Spells(s, es) && Fits(es, pins) ==> Encodes(v, pins, Chars(es), Cycles(es), Mode(es))
    ensures IsMask(v.input) && IsMask(v.output) && IsMask(v.xmask)
  {
    hide Spells, Fits, Says, Has;
    var es :| Spells(s, es) && Fits(es, pins);
    assert Encodes(v, pins, Chars(es), Cycles(es), Mode(es));
  }

  lemma FitsChars(s: bytes, es: seq<Item>, pins: seq<Pin>)
    requires Spells(s, es) && Fits(es, pins)
    ensures |Chars(es)| == |pins|
    ensures forall n :: 0 <= n < |pins| ==>
      Chars(es)[n] == 48 || Chars(es)[n] == 49 || (Chars(es)[n] == 88 && pins[n].kind == Output)
  {
    hide Chars;
    CharsAre(es);
  }

  lemma ShownIs(v: Vector, pins: seq<Pin>, bitmask: seq<bv8>, clock: seq<bv8>, chars: bytes, cycles: int, mode: nat,
      inputs: bytes, expected: bytes)
    requires InRange(pins) && DistinctPins(pins) && Declares(bitmask, pins, Output) && IsMask(clock)
    requires |chars| == |pins| && Encodes(v, pins, chars, cycles, mode)
    requires forall n :: 0 <= n < |pins| ==>
      chars[n] == 48 || chars[n] == 49 || (chars[n] == 88 && pins[n].kind == Output)
    requires |inputs| == PINS && forall j :: 0 <= j < PINS ==> inputs[j] == InputChar(v.input, clock, 23 - j)
    requires |expected| == PINS
    requires forall j :: 0 <= j < PINS ==> expected[j] == ExpectedChar(v.output, v.xmask, bitmask, 23 - j)
    ensures Shown(inputs, expected, pins, chars, clock)
  {
    hide On, Says, Marks;
    forall n | 0 <= n < |pins|
      ensures pins[n].kind == Output ==> expected[23 - pins[n].no] == chars[n]
      ensures pins[n].kind == Input ==> inputs[23 - pins[n].no] == if Has(clock, pins[n].no) then 67 else chars[n]
    {
      assert pins[n] == Pin(pins[n].kind, pins[n].no);
      assert 23 - (23 - pins[n].no) == pins[n].no;
      if pins[n].kind == Output {
        OwnCharacter(v.output, pins, chars, n, 49);
        OwnCharacter(v.xmask, pins, chars, n, 88);
      } else {
        OwnCharacter(v.input, pins, chars, n, 49);
      }
    }
  }
}
