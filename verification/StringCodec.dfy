/**
 * The string codec round trip: reading back what dump_string wrote gives the same bytes, raw or as ASCII
 * with surrogate pairs (section 2.5 of RFC 4627), and unescaping never makes a text longer.
 */
module StringCodec {
  import opened Bytes
  import opened JsonPrint
  import opened JsonGrammar
  import Utf8

  /** The text between the quotes for a valid string. */
  function EscapeAll(s: bytes, ascii: bool): bytes
    requires Utf8.Valid(s)
    decreases |s|
  {
    if s == [] then []
    else
      Utf8.ValidStep(s);
      var c := Utf8.DecodeOne(s).value;
      Utf8.EncodeInvertsDecode(s);
      (if NeedsEscape(c.cp, ascii) then Escape(c.cp) else s[..c.size]) + EscapeAll(s[c.size..], ascii)
  }

  lemma {:induction false} EmitValid(s: bytes, pending: bytes, ascii: bool)
    requires Utf8.Valid(s)
    ensures Emit(s, pending, ascii) == Emitted(pending + EscapeAll(s, ascii), true)
    decreases |s|
  {
    if s == [] {
      assert pending + [] == pending;
    } else {
      var c := Utf8.DecodeOne(s).value;
      assert 1 <= c.size <= |s| && Utf8.IsScalar(c.cp) && Utf8.Valid(s[c.size..]) by {
        Utf8.ValidStep(s);
        Utf8.EncodeInvertsDecode(s);
      }
      var t := s[c.size..];
      var e := EscapeAll(t, ascii);
      if NeedsEscape(c.cp, ascii) {
        EmitValid(t, [], ascii);
        assert [] + e == e;
        Assoc(pending, Escape(c.cp), e);
      } else {
        EmitValid(t, pending + s[..c.size], ascii);
        Assoc(pending, s[..c.size], e);
      }
    }
  }

  lemma {:induction false} EmitOk(s: bytes, pending: bytes, ascii: bool)
    ensures Emit(s, pending, ascii).ok <==> Utf8.Valid(s)
    decreases |s|
  {
    if s != [] {
      Utf8.ValidStep(s);
      if Utf8.DecodeOne(s).Some? {
        var c := Utf8.DecodeOne(s).value;
        Utf8.EncodeInvertsDecode(s);
        EmitOk(s[c.size..], if NeedsEscape(c.cp, ascii) then [] else pending + s[..c.size], ascii);
      }
    }
  }

  predicate Plain(p: bytes) {
    forall i :: 0 <= i < |p| ==> p[i] != QUOTE && p[i] != BACKSLASH && p[i] > 0x1F
  }

  /** `e` is source text for `v`: any continuation is scanned and unescaped behind it. */
  ghost predicate Denotes(e: bytes, v: bytes, x: bytes) {
    && StringEnd(e + x) == Behind(StringEnd(x), |e|)
    && Unescape(e + x) == Unescape(x).Prepend(v)
  }

  lemma {:induction false} PlainDenotesItself(p: bytes, x: bytes)
    requires Plain(p)
    ensures Denotes(p, p, x)
  {
    if p == [] {
      assert p + x == x;
      assert Unescape(x).Decoded? ==> [] + Unescape(x).s == Unescape(x).s;
    } else {
      PlainDenotesItself(p[1..], x);
      assert (p + x)[1..] == p[1..] + x;
      assert Unescape(x).Decoded? ==> [p[0]] + (p[1..] + Unescape(x).s) == p + Unescape(x).s;
    }
  }

  lemma HexDigitRoundTrip(d: nat)
    requires d < 16
    ensures HexDigitValue(HexDigit(d)) == Some(d)
  {
  }

  lemma HexRoundTrip(v: nat, x: bytes)
    requires v < 0x10000
    ensures HexValue((UnicodeEscape(v) + x)[2..]) == Some(v)
  {
    var h := (UnicodeEscape(v) + x)[2..];
    HexDigitRoundTrip(v / 4096);
    HexDigitRoundTrip(v / 256 % 16);
    HexDigitRoundTrip(v / 16 % 16);
    HexDigitRoundTrip(v % 16);
    assert h[0] == HexDigit(v / 4096) && h[1] == HexDigit(v / 256 % 16);
    assert h[2] == HexDigit(v / 16 % 16) && h[3] == HexDigit(v % 16);
  }

  lemma BmpDenotes(v: nat, x: bytes)
    requires 0 < v < 0x10000 && Utf8.IsScalar(v)
    ensures Denotes(UnicodeEscape(v), Utf8.Encode(v), x)
  {
    var p := UnicodeEscape(v) + x;
    HexRoundTrip(v, x);
    assert p[0] == BACKSLASH && p[1] == 117;
    assert p[6..] == x;
  }

  lemma SixBehind(p: bytes, tail: bytes)
    requires |p| >= 6 && p[0] == BACKSLASH && p[1] == 117 && p[6..] == tail
    ensures StringEnd(p) == Behind(StringEnd(tail), 6)
  {
  }

  /** Two escapes in a row that name a surrogate pair. */
  lemma PairAt(p: bytes, high: nat, low: nat)
    requires |p| >= 12 && p[0] == BACKSLASH && p[1] == 117 && p[6] == BACKSLASH && p[7] == 117
    requires HexValue(p[2..]) == Some(high) && HexValue(p[8..]) == Some(low)
    requires IsHighSurrogate(high) && IsLowSurrogate(low)
    ensures Unescape(p) == Unescape(p[12..]).Prepend(Utf8.Encode(Combine(high, low)))
  {
    hide HexValue, Utf8.Encode;
    assert UnicodeAt(p) == Point(Combine(high, low), 12);
  }

  lemma EscapeHead(v: nat, x: bytes)
    requires v < 0x10000
    ensures var p := UnicodeEscape(v) + x;
      |p| == 6 + |x| && p[0] == BACKSLASH && p[1] == 117 && p[6..] == x
  {
  }

  lemma TwoSixes(a: bytes, b: bytes, x: bytes)
    requires |a| == |b| == 6
    ensures var p, tail := a + b + x, b + x;
      && p == a + tail && |p| == 12 + |x|
      && p[6..] == tail && p[8..] == tail[2..] && p[12..] == x && p[6] == b[0] && p[7] == b[1]
  {
  }

  lemma Surrogates(cp: nat)
    requires 0x10000 <= cp <= 0x10FFFF
    ensures var high, low := 0xD800 + (cp - 0x10000) / 1024, 0xDC00 + (cp - 0x10000) % 1024;
      && high < 0x10000 && low < 0x10000
      && IsHighSurrogate(high) && IsLowSurrogate(low) && Combine(high, low) == cp
      && Utf8.IsScalar(cp) && Escape(cp) == UnicodeEscape(high) + UnicodeEscape(low)
  {
    hide UnicodeEscape;
  }

  lemma PairDenotes(cp: nat, x: bytes)
    requires 0x10000 <= cp <= 0x10FFFF
    ensures Denotes(Escape(cp), Utf8.Encode(cp), x)
  {
    hide Escape, UnicodeEscape, HexValue, StringEnd, Unescape, Combine, Behind, IsHighSurrogate, IsLowSurrogate,
      Utf8.Encode;
    Surrogates(cp);
    var high := 0xD800 + (cp - 0x10000) / 1024;
    var low := 0xDC00 + (cp - 0x10000) % 1024;
    var a, b := UnicodeEscape(high), UnicodeEscape(low);
    EscapeHead(high, b + x);
    EscapeHead(low, x);
    assert |a| == |b| == 6 && b[0] == (b + x)[0] && b[1] == (b + x)[1];
    TwoSixes(a, b, x);
    HexRoundTrip(high, b + x);
    HexRoundTrip(low, x);
    SixBehind(a + b + x, b + x);
    SixBehind(b + x, x);
    PairAt(a + b + x, high, low);
    BehindTwice(x);
    assert |Escape(cp)| == 12;
  }

  lemma BehindTwice(x: bytes)
    ensures Behind(Behind(StringEnd(x), 6), 6) == Behind(StringEnd(x), 12)
  {
  }

  lemma EscapeDenotes(cp: int, x: bytes)
    requires Utf8.IsScalar(cp) && cp != 0
    requires NeedsEscape(cp, true)
    ensures Denotes(Escape(cp), Utf8.Encode(cp), x)
  {
    if cp >= 0x10000 {
      PairDenotes(cp, x);
    } else if cp == 92 || cp == 34 || cp == 8 || cp == 12 || cp == 10 || cp == 13 || cp == 9 {
      var p := Escape(cp) + x;
      assert p[0] == BACKSLASH && IsShortcut(p[1]) && p[1] != 117;
      assert p[2..] == x;
      assert [Shortcut(p[1])] == Utf8.Encode(cp);
    } else {
      BmpDenotes(cp, x);
    }
  }

  lemma DenotesConcat(e: bytes, v: bytes, f: bytes, w: bytes, x: bytes)
    requires Denotes(e, v, f + x) && Denotes(f, w, x)
    ensures Denotes(e + f, v + w, x)
  {
    assert e + f + x == e + (f + x);
    assert Unescape(x).Decoded? ==> v + (w + Unescape(x).s) == v + w + Unescape(x).s;
  }

  lemma {:induction false} EscapeAllDenotes(s: bytes, ascii: bool, x: bytes)
    requires Utf8.Valid(s) && NulFree(s)
    ensures Denotes(EscapeAll(s, ascii), s, x)
    decreases |s|
  {
    if s == [] {
      PlainDenotesItself([], x);
    } else {
      Utf8.ValidStep(s);
      var c := Utf8.DecodeOne(s).value;
      Utf8.EncodeInvertsDecode(s);
      var t := s[c.size..];
      EscapeAllDenotes(t, ascii, x);
      var e := if NeedsEscape(c.cp, ascii) then Escape(c.cp) else s[..c.size];
      CharDenotes(s, ascii, EscapeAll(t, ascii) + x);
      DenotesConcat(e, s[..c.size], EscapeAll(t, ascii), t, x);
      assert s == s[..c.size] + t;
    }
  }

  lemma CharDenotes(s: bytes, ascii: bool, x: bytes)
    requires s != [] && NulFree(s) && Utf8.DecodeOne(s).Some? && Utf8.DecodeOne(s).value.size <= |s|
    ensures var c := Utf8.DecodeOne(s).value;
      Utf8.IsScalar(c.cp) && Denotes(if NeedsEscape(c.cp, ascii) then Escape(c.cp) else s[..c.size], s[..c.size], x)
  {
    var c := Utf8.DecodeOne(s).value;
    Utf8.EncodeInvertsDecode(s);
    var e := Utf8.Encode(c.cp);
    assert s[..c.size] == e && s[0] == e[0];
    if NeedsEscape(c.cp, ascii) {
      EscapeDenotes(c.cp, x);
    } else {
      PlainDenotesItself(e, x);
    }
  }

  lemma PrintStringText(s: bytes, ascii: bool)
    requires Utf8.Valid(s)
    ensures PrintString(s, ascii) == Emitted([QUOTE] + EscapeAll(s, ascii) + [QUOTE], true)
  {
    EmitValid(s, [], ascii);
    assert [] + EscapeAll(s, ascii) == EscapeAll(s, ascii);
  }

  /** Scanning a dumped string from behind its opening quote yields the string and stops behind the closing one. */
  lemma StringRoundTrip(s: bytes, ascii: bool, rest: bytes)
    requires Utf8.Valid(s) && NulFree(s)
    ensures PrintString(s, ascii).ok
    ensures LexString((PrintString(s, ascii).text + rest)[1..]) == Scan(Str(s), rest)
  {
    PrintStringText(s, ascii);
    var e := EscapeAll(s, ascii);
    var p := (PrintString(s, ascii).text + rest)[1..];
    assert p == e + ([QUOTE] + rest);
    var n := |e| + 1;
    assert p[..n] == e + [QUOTE] && p[n..] == rest;
    assert StringEnd(p) == Some(n) by {
      EscapeAllDenotes(s, ascii, [QUOTE] + rest);
    }
    assert Unescape(p[..n]) == Decoded(s) by {
      EscapeAllDenotes(s, ascii, [QUOTE]);
      assert Unescape([QUOTE]) == Decoded([]);
      assert s + [] == s;
    }
  }

  /** The decoded text fits the buffer allocated for the source text. */
  lemma {:induction false} UnescapeShrinks(p: bytes)
    requires Unescape(p).Decoded?
    ensures |Unescape(p).s| < |p|
    decreases |p|
  {
    if p[0] != QUOTE {
      if p[0] != BACKSLASH {
        UnescapeShrinks(p[1..]);
      } else if p[1] != 117 {
        UnescapeShrinks(p[2..]);
      } else {
        UnescapeShrinks(p[UnicodeAt(p).size..]);
      }
    }
  }

  /** A decoded string never contains a NUL, so it is the whole of a C string. */
  lemma {:induction false} UnescapeNulFree(p: bytes)
    requires Unescape(p).Decoded? && NulFree(p)
    ensures NulFree(Unescape(p).s)
    decreases |p|
  {
    if p[0] != QUOTE {
      if p[0] != BACKSLASH {
        UnescapeNulFree(p[1..]);
      } else if p[1] != 117 {
        UnescapeNulFree(p[2..]);
      } else {
        UnescapeNulFree(p[UnicodeAt(p).size..]);
      }
    }
  }
}
