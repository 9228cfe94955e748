/** The streaming lexer (jansson-2.3/src/load.c:224-615), proved to compute JsonGrammar.Lex. */
module Lexers {
  import opened Bytes
  import opened JsonValue
  import opened JsonPrint
  import opened JsonGrammar
  import opened StrBuffers
  import opened Streams
  import StringCodec
  import Utf8

  const INPUT_MAX: nat := 0x3FFF_FF00

  /** How far a reader that wants byte `j` of `s` gets. */
  function Upto(s: bytes, j: nat): (n: nat)
    ensures n <= |s|
  {
    if j < |s| then j + 1 else |s|
  }

  class Lexer {
    const stream: Stream
    const saved: StrBuffer
    var token: Token

    ghost predicate Valid()
      reads stream, stream.buffer, saved, saved.value
    {
      && stream.buffer != saved.value
      && stream.Valid()
      && saved.Valid()
      && |stream.data| <= INPUT_MAX
      && saved.length <= |stream.data|
      && saved.size <= 2 * |stream.data| + 16
      && saved.length <= stream.position
    }

    /** The text not yet read. */
    ghost function Rest(): bytes
      requires Valid()
      reads stream, stream.buffer, saved, saved.value
    {
      stream.Rest()
    }

    /**
     * The reader holds byte `j` of `s`, the text that starts at `base`: as `c`, and saved with everything
     * before it; or it has run into the end of the stream and `c` is the end code.
     */
    ghost predicate Holds(s: bytes, base: nat, j: nat, c: int)
      requires Valid()
      reads stream, stream.buffer, saved, saved.value
    {
      && j <= |s|
      && base <= |stream.Text()| && stream.Text()[base..] == s
      && stream.position == base + Upto(s, j)
      && saved.Text() == s[..Upto(s, j)]
      && (j < |s| ==> c == Signed(s[j]) && stream.CanUnget())
      && (j == |s| ==> c == stream.EndCode())
    }

    /** What is saved is exactly what has been read from byte `base` on. */
    ghost predicate SavedFrom(base: nat)
      requires Valid()
      reads stream, stream.buffer, saved, saved.value
    {
      base <= stream.position && saved.Text() == stream.Text()[base..stream.position]
    }

    constructor (text: bytes)
      requires NulFree(text) && |text| <= INPUT_MAX
      ensures Valid() && fresh(stream) && fresh(stream.buffer) && fresh(saved) && fresh(saved.value)
      ensures stream.data == text && stream.position == 0
    {
      stream := new Stream(text);
      saved := new StrBuffer();
      token := Invalid;
    }

    method Save(b: byte)
      requires Valid() && saved.length < stream.position
      modifies saved, saved.value
      ensures saved.value == old(saved.value) || fresh(saved.value)
      ensures Valid() && saved.Text() == old(saved.Text()) + [b]
    {
      var rc := saved.AppendByte(b);
      assert |saved.Text()| == saved.length;
    }

    /** lex_get_save from a held byte: holds the next one. */
    method GetSave(ghost s: bytes, ghost base: nat, ghost j: nat, ghost c0: int) returns (c: int)
      requires Valid() && Holds(s, base, j, c0)
      modifies stream, stream.buffer, saved, saved.value
      ensures Valid() && (saved.value == old(saved.value) || fresh(saved.value))
      ensures Holds(s, base, if j < |s| then j + 1 else j, c)
    {
      hide Utf8.ValidPrefix;
      ghost var p := stream.position;
      c := stream.Get();
      if p < |stream.Text()| {
        assert stream.Text()[p] == s[p - base];
        NotACode(p);
      }
      if c != STATE_EOF && c != STATE_ERROR {
        Save(if c < 0 then c + 256 else c);
      }
    }

    /** A data byte never reads as an end code. */
    lemma NotACode(p: nat)
      requires p < |stream.Text()|
      ensures Signed(stream.Text()[p]) != STATE_EOF && Signed(stream.Text()[p]) != STATE_ERROR
    {
      BytesAreNotCodes(stream.data, p);
    }

    /** lex_unget_unsave: gives the held byte back. */
    method UngetUnsave(ghost s: bytes, ghost base: nat, ghost j: nat, c: int)
      requires Valid() && Holds(s, base, j, c)
      modifies stream, saved`length, saved.value
      ensures Valid()
      ensures stream.position == base + j && saved.Text() == s[..j] && SavedFrom(base)
      ensures stream.Rest() == s[j..]
    {
      hide Utf8.ValidPrefix, SavedFrom;
      if j < |s| {
        assert stream.Text()[stream.position - 1] == s[j];
        NotACode(stream.position - 1);
      }
      if c != STATE_EOF && c != STATE_ERROR {
        ghost var before := saved.Text();
        assert before == s[..j + 1];
        stream.Unget(c);
        assert saved.Text() == before;
        var d := saved.Pop();
        assert before[..j] == saved.Text() && before[j] == d;
        assert saved.Text() == s[..j] && d == s[j];
      }
      StillSaved(s, base, j);
    }

    // ---- strings ----

    /** The first loop of lex_scan_string: reads and saves up to the closing quote. */
    method ReadString(ghost s: bytes, ghost base: nat) returns (found: bool)
      requires Valid() && s != [] && Holds(s, base, 0, QUOTE)
      modifies stream, stream.buffer, saved, saved.value
      ensures Valid() && SavedFrom(base) && (saved.value == old(saved.value) || fresh(saved.value))
      ensures found <==> StringEnd(s[1..]).Some?
      ensures found ==> var n := 1 + StringEnd(s[1..]).value;
        stream.position == base + n && saved.Text() == s[..n]
    {
      hide Valid, Holds, SavedFrom, StringEnd;
      ghost var j := 1;
      Held(s, base, 0, QUOTE);
      var c := GetSave(s, base, 0, QUOTE);
      while c != QUOTE
        invariant Valid() && (saved.value == old(saved.value) || fresh(saved.value))
        invariant 1 <= j <= |s| && Holds(s, base, j, c)
        invariant StringEnd(s[1..]) == Behind(StringEnd(s[j..]), j - 1)
        decreases |s| - j
      {
        Held(s, base, j, c);
        StringEndStep(s, j);
        if c == STATE_ERROR || c == STATE_EOF {
          return false;
        } else if 0 <= c <= 0x1F {
          UngetUnsave(s, base, j, c);
          return false;
        } else if c == BACKSLASH {
          var ok;
          ok, c, j := ReadEscape(s, base, j);
          if !ok {
            return false;
          }
        } else {
          c := GetSave(s, base, j, c);
          j := j + 1;
        }
      }
      Held(s, base, j, c);
      StringEndStep(s, j);
      found := true;
    }

    /** The part of an escape behind its backslash, and the byte after it. */
    method ReadEscape(ghost s: bytes, ghost base: nat, ghost j: nat) returns (ok: bool, c: int, ghost j': nat)
      requires Valid() && 1 <= j < |s| && s[j] == BACKSLASH && Holds(s, base, j, BACKSLASH)
      modifies stream, stream.buffer, saved, saved.value
      ensures Valid() && SavedFrom(base) && (saved.value == old(saved.value) || fresh(saved.value))
      ensures !ok ==> StringEnd(s[j..]) == None
      ensures ok ==> j < j' <= |s| && Holds(s, base, j', c) && StringEnd(s[j..]) == Behind(StringEnd(s[j'..]), j' - j)
    {
      hide Valid, Holds, SavedFrom, StringEnd;
      StringEndStep(s, j);
      j' := j;
      c := GetSave(s, base, j, BACKSLASH);
      Held(s, base, j + 1, c);
      if c == 117 {
        // l_isxdigit holds of every character, so the four that follow are taken as they are.
        c := GetSave(s, base, j + 1, c);
        var i := 0;
        while i < 4
          invariant 0 <= i <= 4
          invariant Valid() && (saved.value == old(saved.value) || fresh(saved.value))
          invariant Holds(s, base, Min(j + 2 + i, |s|), c)
        {
          c := GetSave(s, base, Min(j + 2 + i, |s|), c);
          i := i + 1;
        }
        j' := Min(j + 6, |s|);
        StringEndStep(s, |s|);
      } else if c == QUOTE || c == BACKSLASH || c == 47 || c == 98 || c == 102 || c == 110 || c == 114 || c == 116 {
        c := GetSave(s, base, j + 1, c);
        j' := j + 2;
      } else {
        return false, c, j;
      }
      Held(s, base, j', c);
      ok := true;
    }

    static function Min(a: nat, b: nat): nat {
      if a < b then a else b
    }

    lemma StillSaved(s: bytes, base: nat, n: nat)
      requires Valid() && base <= |stream.Text()| && s == stream.Text()[base..] && n <= |s|
      requires stream.position == base + n && saved.Text() == s[..n]
      ensures SavedFrom(base)
    {
      assert s[..n] == stream.Text()[base..base + n];
    }

    /** What the code sees of a held byte. */
    lemma Held(s: bytes, base: nat, j: nat, c: int)
      requires Valid() && Holds(s, base, j, c)
      ensures j <= |s|
      ensures j < |s| ==> c == Signed(s[j]) && c != STATE_EOF && c != STATE_ERROR
      ensures j == |s| ==> c == stream.EndCode()
      ensures stream.position == base + Upto(s, j) && saved.Text() == s[..Upto(s, j)] && SavedFrom(base)
    {
      hide SavedFrom, Utf8.ValidPrefix;
      StillSaved(s, base, Upto(s, j));
      if j < |s| {
        assert s[j] == stream.Text()[base + j];
        NotACode(base + j);
      }
    }

    /** StringEnd at byte `j` of a text. */
    static lemma StringEndStep(s: bytes, j: nat)
      requires j <= |s|
      ensures j == |s| ==> StringEnd(s[j..]) == None
      ensures j < |s| && s[j] == QUOTE ==> StringEnd(s[j..]) == Some(1)
      ensures j < |s| && s[j] <= 0x1F ==> StringEnd(s[j..]) == None
      ensures j < |s| && s[j] != QUOTE && s[j] > 0x1F && s[j] != BACKSLASH ==>
        StringEnd(s[j..]) == Behind(StringEnd(s[j + 1..]), 1)
      ensures j < |s| && s[j] == BACKSLASH ==>
        if j + 1 < |s| && s[j + 1] == 117 then
          StringEnd(s[j..]) == if |s| - j < 6 then None else Behind(StringEnd(s[j + 6..]), 6)
        else if j + 1 < |s| && IsShortcut(s[j + 1]) then
          StringEnd(s[j..]) == Behind(StringEnd(s[j + 2..]), 2)
        else
          StringEnd(s[j..]) == None
    {
      var t := s[j..];
      if j < |s| {
        assert t[0] == s[j] && t[1..] == s[j + 1..];
        if j + 1 < |s| {
          assert t[1] == s[j + 1] && t[2..] == s[j + 2..];
        }
        if j + 6 <= |s| {
          assert t[6..] == s[j + 6..];
        }
      }
    }

    /** decode_unicode_escape: `p` points at the 'u'. None is a failed assertion. */
    method DecodeUnicodeEscape(p: nat) returns (r: Option<nat>)
      requires saved.Valid() && p + 4 < saved.length
      ensures r == HexValue(saved.Text()[p + 1..])
    {
      hide HexValue;
      ghost var t := saved.Text()[p + 1..];
      var value: int := 0;
      var i := 1;
      while i <= 4
        invariant 1 <= i <= 5
        invariant forall k :: 0 <= k < i - 1 ==> HexDigitValue(t[k]).Some?
        invariant value == PartialHex(t, i - 1)
      {
        var c: int := saved.value[p + i];
        assert c == t[i - 1];
        value := value * 16;
        if IsDigit(c) {
          value := value + (c - 48);
        } else if IsLower(c) {
          value := value + (c - 97 + 10);
        } else if IsUpper(c) {
          value := value + (c - 65 + 10);
        } else {
          NotHex(t, i - 1);
          return None;
        }
        i := i + 1;
      }
      AllHex(t);
      return Some(value);
    }

    static lemma AllHex(t: bytes)
      requires |t| >= 4 && forall k :: 0 <= k < 4 ==> HexDigitValue(t[k]).Some?
      ensures HexValue(t) == Some(PartialHex(t, 4))
    {
      hide HexDigitValue;
      assert PartialHex(t, 1) == HexDigitValue(t[0]).value;
      assert PartialHex(t, 2) == PartialHex(t, 1) * 16 + HexDigitValue(t[1]).value;
      assert PartialHex(t, 3) == PartialHex(t, 2) * 16 + HexDigitValue(t[2]).value;
      assert PartialHex(t, 4) == PartialHex(t, 3) * 16 + HexDigitValue(t[3]).value;
    }

    static lemma NotHex(t: bytes, k: nat)
      requires k < 4 <= |t| && HexDigitValue(t[k]) == None
      ensures HexValue(t) == None
    {
      hide HexDigitValue;
    }

    static function PartialHex(t: bytes, n: nat): nat
      requires n <= |t| && forall k :: 0 <= k < n ==> HexDigitValue(t[k]).Some?
    {
      if n == 0 then 0 else PartialHex(t, n - 1) * 16 + HexDigitValue(t[n - 1]).value
    }

    /** The code point behind "\\u" at `p`, the second half of a pair included; `size` is its source length. */
    method DecodeUnicode(p: nat) returns (r: UnicodeEscaped)
      requires saved.Valid() && p + 6 <= saved.length
      requires saved.Text()[p + 1] == 117
      requires StringEnd(saved.Text()[p + 6..]) == Some(saved.length - p - 6)
      ensures r == UnicodeAt(saved.Text()[p..])
    {
      hide StringEnd;
      ghost var s := saved.Text();
      ghost var t := s[p..];
      StringEndStep(s, p + 6);
      assert forall k :: 0 <= k < |s| ==> saved.value[k] == s[k];
      assert t[2..] == s[p + 2..];
      var v := DecodeUnicodeEscape(p + 1);
      if v == None {
        return NoHex;
      }
      HexValueRange(t[2..]);
      if 0xD800 <= v.value <= 0xDBFF {
        assert saved.value[p + 6] == t[6];
        if saved.value[p + 6] == BACKSLASH && saved.value[p + 7] == 117 {
          assert saved.value[p + 7] == t[7];
          assert t[8..] == s[p + 8..];
          var v2 := DecodeUnicodeEscape(p + 7);
          if v2 == None {
            return NoHex;
          }
          if 0xDC00 <= v2.value <= 0xDFFF {
            return Point((v.value - 0xD800) * 1024 + (v2.value - 0xDC00) + 0x10000, 12);
          }
        }
        return BadSurrogate;
      } else if 0xDC00 <= v.value <= 0xDFFF {
        return BadSurrogate;
      } else if v.value == 0 {
        return BadSurrogate;
      }
      return Point(v.value, 6);
    }

    /** One turn of the second loop: the bytes one source character or escape stands for, and its length. */
    method DecodeChar(p: nat, buffer: array<byte>) returns (r: Decoded, size: nat)
      requires saved.Valid() && p < saved.length && saved.value[p] != QUOTE && buffer.Length == 4
      requires buffer != saved.value
      requires StringEnd(saved.Text()[p..]) == Some(saved.length - p)
      modifies buffer
      ensures saved.Text() == old(saved.Text())
      ensures r.Decoded? ==> var s := saved.Text();
        && |r.s| <= size && 1 <= size < saved.length - p
        && StringEnd(s[p + size..]) == Some(saved.length - p - size)
        && Unescape(s[p..]) == Unescape(s[p + size..]).Prepend(r.s)
      ensures !r.Decoded? ==> Unescape(saved.Text()[p..]) == r
    {
      hide Unescape, StringEnd, UnicodeAt;
      ghost var s := saved.Text();
      assert forall k :: 0 <= k < |s| ==> saved.value[k] == s[k];
      StringEndStep(s, p);
      UnescapeStep(s, p);
      if saved.value[p] == BACKSLASH {
        StringEndStep(s, p + 2);
        if saved.value[p + 1] == 117 {
          r, size := DecodeCodePoint(p, buffer);
          return;
        }
        var b := saved.value[p + 1];
        var c := if b == 98 then 8 else if b == 102 then 12 else if b == 110 then 10
                 else if b == 114 then 13 else if b == 116 then 9 else b;
        return Decoded([c]), 2;
      }
      StringEndStep(s, p + 1);
      return Decoded([saved.value[p]]), 1;
    }

    /** The branch for \\u: one escape, or the two of a surrogate pair, as UTF-8. */
    method DecodeCodePoint(p: nat, buffer: array<byte>) returns (r: Decoded, size: nat)
      requires saved.Valid() && p + 1 < saved.length && saved.value[p] == BACKSLASH && saved.value[p + 1] == 117
      requires buffer.Length == 4 && buffer != saved.value
      requires StringEnd(saved.Text()[p..]) == Some(saved.length - p)
      modifies buffer
      ensures saved.Text() == old(saved.Text())
      ensures r.Decoded? ==> var s := saved.Text();
        && |r.s| <= size && 1 <= size < saved.length - p
        && StringEnd(s[p + size..]) == Some(saved.length - p - size)
        && Unescape(s[p..]) == Unescape(s[p + size..]).Prepend(r.s)
      ensures !r.Decoded? ==> Unescape(saved.Text()[p..]) == r
    {
      hide Unescape, StringEnd, UnicodeAt;
      ghost var s := saved.Text();
      assert forall k :: 0 <= k < |s| ==> saved.value[k] == s[k];
      StringEndStep(s, p);
      UnescapeStep(s, p);
      StringEndStep(s, p + 6);
      var u := DecodeUnicode(p);
      if u == NoHex {
        return Abort, 0;
      } else if u == BadSurrogate {
        return Bad, 0;
      }
      var rc, length := Utf8.EncodeInto(u.cp, buffer);
      if u.size == 12 {
        StringEndStep(s, p + 12);
      }
      return Decoded(buffer[..length]), u.size;
    }

    /** The second loop of lex_scan_string: the value of the saved text, in a buffer sized from that text. */
    method DecodeString() returns (r: Decoded)
      requires saved.Valid() && saved.length > 0
      requires StringEnd(saved.Text()[1..]) == Some(saved.length - 1)
      ensures r == Unescape(saved.Text()[1..])
    {
      hide Unescape, StringEnd;
      ghost var s := saved.Text();
      var out := new byte[saved.length + 1];
      var buffer := new byte[4];
      var t := 0;
      var p := 1;
      assert out[..0] == [];
      PrependNothing(Unescape(s[1..]));
      StringEndStep(s, p);
      while saved.value[p] != QUOTE
        invariant 1 <= p < |s| && 0 <= t < p
        invariant StringEnd(s[p..]) == Some(|s| - p)
        invariant Unescape(s[1..]) == Unescape(s[p..]).Prepend(out[..t])
        decreases |s| - p
      {
        ghost var done := out[..t];
        var v, size := DecodeChar(p, buffer);
        if !v.Decoded? {
          return v;
        }
        Copy(out, t, v.s);
        t := t + |v.s|;
        p := p + size;
        PrependTwice(Unescape(s[p..]), v.s, done);
      }
      assert saved.value[p] == s[p];
      UnescapeStep(s, p);
      assert out[..t] + [] == out[..t];
      r := Decoded(out[..t]);
    }

    /** memcpy(t, v, |v|). */
    static method Copy(out: array<byte>, t: nat, v: bytes)
      requires t + |v| <= out.Length
      modifies out
      ensures out[..t + |v|] == old(out[..t]) + v
    {
      forall i | 0 <= i < |v| {
        out[t + i] := v[i];
      }
      assert out[..t] == old(out[..t]);
      assert out[t..t + |v|] == v;
    }

    static lemma PrependNothing(d: Decoded)
      ensures d.Prepend([]) == d
    {
      assert d.Decoded? ==> [] + d.s == d.s;
    }

    static lemma PrependTwice(d: Decoded, v: bytes, done: bytes)
      ensures d.Prepend(v).Prepend(done) == d.Prepend(done + v)
    {
      if d.Decoded? {
        Assoc(done, v, d.s);
      }
    }

    /** Unescape at byte `p` of a text in which a closing quote follows. */
    static lemma UnescapeStep(s: bytes, p: nat)
      requires p < |s| && StringEnd(s[p..]).Some?
      ensures s[p] == QUOTE ==> Unescape(s[p..]) == Decoded([])
      ensures s[p] != QUOTE && s[p] != BACKSLASH ==> Unescape(s[p..]) == Unescape(s[p + 1..]).Prepend([s[p]])
      ensures s[p] == BACKSLASH ==> p + 2 <= |s|
      ensures s[p] == BACKSLASH && s[p + 1] != 117 ==>
        Unescape(s[p..]) == Unescape(s[p + 2..]).Prepend([Shortcut(s[p + 1])])
      ensures s[p] == BACKSLASH && s[p + 1] == 117 ==>
        var u := UnicodeAt(s[p..]);
        Unescape(s[p..]) == match u
          case NoHex => Abort
          case BadSurrogate => Bad
          case Point(cp, size) => Unescape(s[p + size..]).Prepend(Utf8.Encode(cp))
    {
      StringEndStep(s, p);
      var t := s[p..];
      assert t[0] == s[p] && t[1..] == s[p + 1..];
      if s[p] == BACKSLASH {
        assert t[1] == s[p + 1] && t[2..] == s[p + 2..];
        if s[p + 1] == 117 && UnicodeAt(t).Point? {
          assert t[UnicodeAt(t).size..] == s[p + UnicodeAt(t).size..];
        }
      }
    }

    static lemma {:induction false} StringEndOfPrefix(s: bytes, n: nat)
      requires StringEnd(s) == Some(n)
      ensures StringEnd(s[..n]) == Some(n)
      decreases |s|
    {
      if s[0] != QUOTE {
        var k := if s[0] != BACKSLASH then 1 else if s[1] == 117 then 6 else 2;
        StringEndOfPrefix(s[k..], n - k);
        assert s[..n][k..] == s[k..][..n - k];
      }
    }

    /** The three ways a string token can end. */
    static lemma LexStringCases(s: bytes)
      ensures StringEnd(s) == None ==> LexString(s).token == Invalid
      ensures StringEnd(s).Some? ==>
        var n := StringEnd(s).value;
        && n <= |s| && StringEnd(s[..n]) == Some(n)
        && match Unescape(s[..n])
           case Decoded(v) => LexString(s) == Scan(Str(v), s[n..])
           case Bad => LexString(s).token == Invalid
           case Abort => LexString(s).token == Aborted
    {
      hide Unescape;
      if StringEnd(s).Some? {
        StringEndOfPrefix(s, StringEnd(s).value);
      }
    }

    /** lex_scan_string, the opening quote held. */
    method ScanString(ghost s: bytes, ghost base: nat)
      requires Valid() && s != [] && Holds(s, base, 0, QUOTE)
      modifies this`token, stream, stream.buffer, saved, saved.value
      ensures Valid() && SavedFrom(base) && (saved.value == old(saved.value) || fresh(saved.value))
      ensures token == LexString(s[1..]).token
      ensures !token.Stops() ==> Rest() == LexString(s[1..]).rest
    {
      hide Unescape, StringEnd, LexString, Utf8.ValidPrefix;
      token := Invalid;
      assert base <= |stream.Text()| && stream.Text()[base..] == s;
      LexStringCases(s[1..]);
      var found := ReadString(s, base);
      if !found {
        return;
      }
      ghost var n := StringEnd(s[1..]).value;
      assert saved.Text()[1..] == s[1..][..n];
      var r := DecodeString();
      assert Rest() == s[1..][n..];
      match r
      case Decoded(v) => token := Str(v);
      case Bad => token := Invalid;
      case Abort => token := Aborted;
    }

    // ---- numbers and words ----

    /** Reads and saves the digits from byte `j` on. */
    method ReadDigits(ghost s: bytes, ghost base: nat, ghost j: nat, c0: int) returns (c: int, ghost j': nat)
      requires Valid() && Holds(s, base, j, c0)
      modifies stream, stream.buffer, saved, saved.value
      ensures Valid() && SavedFrom(base) && (saved.value == old(saved.value) || fresh(saved.value))
      ensures j <= |s| && j' == j + DigitRun(s[j..]) && Holds(s, base, j', c)
    {
      hide Valid, Holds, SavedFrom;
      c := c0;
      j' := j;
      Held(s, base, j', c);
      while IsDigit(c)
        invariant Valid() && (saved.value == old(saved.value) || fresh(saved.value))
        invariant j <= j' <= |s| && Holds(s, base, j', c)
        invariant j + DigitRun(s[j..]) == j' + DigitRun(s[j'..])
        decreases |s| - j'
      {
        Held(s, base, j', c);
        assert s[j'..][1..] == s[j' + 1..];
        c := GetSave(s, base, j', c);
        j' := j' + 1;
      }
      Held(s, base, j', c);
      assert j' < |s| ==> s[j'..][0] == s[j'];
    }

    /** The integer part of a number, the first byte of the number held. */
    method ReadInteger(ghost s: bytes, ghost base: nat, c0: int) returns (ok: bool, c: int, ghost j: nat)
      requires Valid() && s != [] && Holds(s, base, 0, c0)
      modifies stream, stream.buffer, saved, saved.value
      ensures Valid() && SavedFrom(base) && (saved.value == old(saved.value) || fresh(saved.value))
      ensures ok <==> IntegerEnd(s).Some?
      ensures ok ==> j == IntegerEnd(s).value && Holds(s, base, j, c)
    {
      hide Valid, Holds, SavedFrom;
      c := c0;
      j := 0;
      Held(s, base, 0, c);
      if c == MINUS {
        c := GetSave(s, base, 0, c);
        j := 1;
      }
      Held(s, base, j, c);
      if c == 48 {
        c := GetSave(s, base, j, c);
        j := j + 1;
        Held(s, base, j, c);
        if IsDigit(c) {
          UngetUnsave(s, base, j, c);
          return false, c, j;
        }
      } else if IsDigit(c) {
        assert s[j..][0] == s[j] && s[j..][1..] == s[j + 1..];
        c := GetSave(s, base, j, c);
        c, j := ReadDigits(s, base, j + 1, c);
        Held(s, base, j, c);
      } else {
        UngetUnsave(s, base, j, c);
        return false, c, j;
      }
      ok := true;
    }

    /** The byte behind the point of a fraction, saved only if it is a digit. */
    method PointDigit(ghost s: bytes, ghost base: nat, ghost j: nat) returns (digit: bool, c: int)
      requires Valid() && j < |s| && s[j] == POINT && Holds(s, base, j, POINT)
      modifies stream, stream.buffer, saved, saved.value
      ensures Valid() && SavedFrom(base) && (saved.value == old(saved.value) || fresh(saved.value))
      ensures digit <==> j + 1 < |s| && IsDigit(s[j + 1])
      ensures digit ==> Holds(s, base, j + 1, c)
    {
      hide Utf8.ValidPrefix, SavedFrom;
      c := BehindPoint(s, base, j);
      digit := IsDigit(c);
      if digit {
        Save(c);
        assert s[..j + 2] == s[..j + 1] + [s[j + 1]];
        StillSaved(s, base, j + 2);
      } else {
        stream.Unget(c);
        StillSaved(s, base, j + 1);
      }
    }

    /** lex_get from a held byte: the next one, not saved. */
    method BehindPoint(ghost s: bytes, ghost base: nat, ghost j: nat) returns (c: int)
      requires Valid() && j < |s| && s[j] == POINT && Holds(s, base, j, POINT)
      modifies stream, stream.buffer
      ensures Valid() && saved.Text() == s[..j + 1]
      ensures base <= |stream.Text()| && stream.Text()[base..] == s && stream.position == base + Upto(s, j + 1)
      ensures j + 1 < |s| ==> c == Signed(s[j + 1]) && c != STATE_EOF && c != STATE_ERROR && stream.CanUnget()
      ensures j + 1 == |s| ==> c == stream.EndCode()
    {
      hide Utf8.ValidPrefix;
      c := stream.Get();
      if j + 1 < |s| {
        assert stream.Text()[base + j + 1] == s[j + 1];
        NotACode(base + j + 1);
      }
    }

    /** The fraction, its point held. */
    method ReadFraction(ghost s: bytes, ghost base: nat, ghost j: nat) returns (ok: bool, c: int, ghost j': nat)
      requires Valid() && j < |s| && s[j] == POINT && Holds(s, base, j, POINT)
      modifies stream, stream.buffer, saved, saved.value
      ensures Valid() && SavedFrom(base) && (saved.value == old(saved.value) || fresh(saved.value))
      ensures ok <==> DigitRun(s[j + 1..]) > 0
      ensures ok ==> j' == j + 1 + DigitRun(s[j + 1..]) && j' <= |s| && Holds(s, base, j', c)
    {
      hide Valid, Holds, SavedFrom, DigitRun;
      j' := j + 1;
      ok, c := PointDigit(s, base, j);
      RunStarts(s, j');
      if !ok {
        return;
      }
      c := GetSave(s, base, j', c);
      c, j' := ReadDigits(s, base, j' + 1, c);
    }

    static lemma RunStarts(s: bytes, j: nat)
      requires j <= |s|
      ensures DigitRun(s[j..]) == if j < |s| && IsDigit(s[j]) then 1 + DigitRun(s[j + 1..]) else 0
    {
      assert j < |s| ==> s[j..][0] == s[j] && s[j..][1..] == s[j + 1..];
    }

    /** The exponent, its 'e' held. */
    method ReadExponent(ghost s: bytes, ghost base: nat, ghost j: nat, c0: int)
      returns (ok: bool, c: int, ghost j': nat)
      requires Valid() && j < |s| && (c0 == 69 || c0 == 101) && Holds(s, base, j, c0)
      modifies stream, stream.buffer, saved, saved.value
      ensures Valid() && SavedFrom(base) && (saved.value == old(saved.value) || fresh(saved.value))
      ensures ok <==> ExponentEnd(s[j..]).Some?
      ensures ok ==> j' == j + ExponentEnd(s[j..]).value && j' <= |s| && Holds(s, base, j', c)
    {
      hide Valid, Holds, SavedFrom;
      ghost var t := s[j..];
      Held(s, base, j, c0);
      c := GetSave(s, base, j, c0);
      j' := j + 1;
      Held(s, base, j', c);
      if c == 43 || c == MINUS {
        c := GetSave(s, base, j', c);
        j' := j' + 1;
      }
      Held(s, base, j', c);
      assert t[j' - j..] == s[j'..];
      assert j' < |s| ==> s[j'..][0] == s[j'];
      if !IsDigit(c) {
        UngetUnsave(s, base, j', c);
        return false, c, j';
      }
      assert s[j'..][1..] == s[j' + 1..];
      c := GetSave(s, base, j', c);
      c, j' := ReadDigits(s, base, j' + 1, c);
      ok := true;
    }

    /** The fraction and exponent of a real, from the byte held behind its integer part. */
    method ReadReal(ghost s: bytes, ghost base: nat, ghost j: nat, c0: int) returns (ok: bool, ghost j': nat)
      requires Valid() && j <= |s| && StartsReal(s[j..]) && Holds(s, base, j, c0)
      modifies stream, stream.buffer, saved, saved.value
      ensures Valid() && SavedFrom(base) && (saved.value == old(saved.value) || fresh(saved.value))
      ensures ok <==> RealEnd(s[j..]).Some?
      ensures ok ==> j' == j + RealEnd(s[j..]).value && j' <= |s|
      ensures ok ==> stream.position == base + j' && saved.Text() == s[..j'] && Rest() == s[j'..]
    {
      hide Valid, Holds, SavedFrom, Utf8.ValidPrefix;
      var c := c0;
      j' := j;
      Held(s, base, j, c);
      assert s[j..][0] == s[j];
      if c == POINT {
        ok, c, j' := ReadFraction(s, base, j);
        assert s[j..][1..] == s[j + 1..];
        if !ok {
          return;
        }
        assert s[j..][j' - j..] == s[j'..];
      }
      Held(s, base, j', c);
      assert j' < |s| ==> s[j'..][0] == s[j'];
      if c == 69 || c == 101 {
        ok, c, j' := ReadExponent(s, base, j', c);
        if !ok {
          return;
        }
      }
      UngetUnsave(s, base, j', c);
      ok := true;
    }

    /** lex_scan_number, the first byte of the number held. */
    method ScanNumber(ghost s: bytes, ghost base: nat, c0: int)
      requires Valid() && s != [] && Holds(s, base, 0, c0)
      modifies this`token, stream, stream.buffer, saved, saved.value
      ensures Valid() && SavedFrom(base) && (saved.value == old(saved.value) || fresh(saved.value))
      ensures token == LexNumber(s).token
      ensures !token.Stops() ==> Rest() == LexNumber(s).rest
    {
      hide Valid, Holds, SavedFrom, Utf8.ValidPrefix, IntegerEnd, RealEnd, IntValue;
      token := Invalid;
      var ok, c, j := ReadInteger(s, base, c0);
      if !ok {
        return;
      }
      Held(s, base, j, c);
      assert j < |s| ==> s[j..][0] == s[j];
      if c != POINT && c != 69 && c != 101 {
        UngetUnsave(s, base, j, c);
        SavedIsText();
        var value := IntValue(saved.value[..saved.length]);
        if value < INT_MIN || value > INT_MAX {
          return;
        }
        token := Int(value);
        return;
      }
      var isReal, j' := ReadReal(s, base, j, c);
      if !isReal {
        return;
      }
      SavedIsText();
      token := Real(saved.value[..saved.length]);
    }

    /** The keyword branch of lex_scan, the first letter held. */
    method ScanWord(ghost s: bytes, ghost base: nat, c0: int)
      requires Valid() && s != [] && Holds(s, base, 0, c0)
      modifies this`token, stream, stream.buffer, saved, saved.value
      ensures Valid() && SavedFrom(base) && (saved.value == old(saved.value) || fresh(saved.value))
      ensures IsAlpha(c0) ==> token == LexWord(s).token && Rest() == LexWord(s).rest
    {
      hide Valid, Holds, SavedFrom, Utf8.ValidPrefix, AlphaRun, WordToken;
      Held(s, base, 0, c0);
      LetterRun(s, 0);
      ghost var j := 1;
      var c := GetSave(s, base, 0, c0);
      assert s[0..] == s;
      while IsAlpha(c)
        invariant Valid() && (saved.value == old(saved.value) || fresh(saved.value))
        invariant 1 <= j <= |s| && Holds(s, base, j, c)
        invariant IsAlpha(s[0]) ==> AlphaRun(s) == j + AlphaRun(s[j..])
        decreases |s| - j
      {
        Held(s, base, j, c);
        LetterRun(s, j);
        c := GetSave(s, base, j, c);
        j := j + 1;
      }
      Held(s, base, j, c);
      LetterRun(s, j);
      UngetUnsave(s, base, j, c);
      SavedIsText();
      token := WordToken(saved.value[..saved.length]);
    }

    static lemma LetterRun(s: bytes, j: nat)
      requires j <= |s|
      ensures AlphaRun(s[j..]) == if j < |s| && IsAlpha(s[j]) then 1 + AlphaRun(s[j + 1..]) else 0
    {
      assert j < |s| ==> s[j..][0] == s[j] && s[j..][1..] == s[j + 1..];
    }

    lemma SavedIsText()
      requires Valid()
      ensures saved.length <= saved.value.Length && saved.value[..saved.length] == saved.Text()
    {
    }

    // ---- lex_scan ----

    /** Byte `p` of the whole text has been read into `c`, and not saved. */
    ghost predicate Reads(p: nat, c: int)
      requires Valid()
      reads stream, stream.buffer, saved, saved.value
    {
      var t := stream.Text();
      && p <= |t|
      && stream.position == Upto(t, p)
      && (p < |t| ==> c == Signed(t[p]) && c != STATE_EOF && c != STATE_ERROR && stream.CanUnget())
      && (p == |t| ==> c == stream.EndCode())
    }

    method GetUnsaved(ghost p: nat) returns (c: int)
      requires Valid() && saved.Text() == [] && stream.position == p
      modifies stream, stream.buffer
      ensures Valid() && saved.Text() == [] && Reads(p, c)
    {
      hide Utf8.ValidPrefix;
      assert |saved.Text()| == saved.length;
      c := stream.Get();
      if p < |stream.Text()| {
        NotACode(p);
      }
    }

    /** Skips white space; the first byte behind it is read but not saved. */
    method SkipSpace(ghost t: bytes, ghost broken: bool) returns (c: int, ghost p: nat)
      requires Valid() && saved.Text() == [] && t == stream.Text() && broken == stream.Broken()
      modifies stream, stream.buffer
      ensures Valid() && saved.Text() == [] && p <= |t| && Reads(p, c)
      ensures p < |t| ==> !IsSpace(t[p])
      ensures p == old(stream.position) + SpaceRun(old(Rest()))
      ensures Lex(old(Rest()), broken) == Lex(t[p..], broken)
    {
      hide Utf8.ValidPrefix, Lex, SpaceRun;
      ghost var p0 := stream.position;
      p := p0;
      c := GetUnsaved(p);
      while c == 32 || c == 9 || c == 10 || c == 13
        invariant Valid() && saved.Text() == [] && p <= |t| && Reads(p, c)
        invariant Lex(t[p0..], broken) == Lex(t[p..], broken)
        invariant p0 + SpaceRun(t[p0..]) == p + SpaceRun(t[p..])
        decreases |t| - p
      {
        LexSpace(t, p, broken);
        SpaceStep(t, p);
        p := p + 1;
        c := GetUnsaved(p);
      }
      SpaceStep(t, p);
    }

    /** The white space in front of a token. */
    static function SpaceRun(s: bytes): nat {
      if s == [] || !IsSpace(s[0]) then 0 else 1 + SpaceRun(s[1..])
    }

    static lemma SpaceStep(s: bytes, p: nat)
      requires p <= |s|
      ensures SpaceRun(s[p..]) == if p < |s| && IsSpace(s[p]) then 1 + SpaceRun(s[p + 1..]) else 0
    {
      assert p < |s| ==> s[p..][0] == s[p] && s[p..][1..] == s[p + 1..];
    }

    static lemma LexSpace(s: bytes, p: nat, broken: bool)
      requires p < |s| && IsSpace(s[p])
      ensures Lex(s[p..], broken) == Lex(s[p + 1..], broken)
    {
      assert s[p..][0] == s[p] && s[p..][1..] == s[p + 1..];
    }

    /** lex_save_cached: the rest of the character of which a byte has been read. */
    method SaveCached(ghost base: nat)
      requires Valid() && stream.CanUnget() && SavedFrom(base)
      modifies stream, saved, saved.value
      ensures Valid() && SavedFrom(base) && (saved.value == old(saved.value) || fresh(saved.value))
      ensures stream.position == old(stream.start + stream.count)
      ensures saved.Text() == old(saved.Text()) + stream.Text()[old(stream.position)..stream.position]
      ensures forall i :: old(stream.position) <= i < stream.position ==> Utf8.IsContinuation(stream.Text()[i])
      ensures stream.position < |stream.Text()| ==> !Utf8.IsContinuation(stream.Text()[stream.position])
    {
      hide Utf8.ValidPrefix, SavedFrom;
      ghost var p := stream.position;
      SavedUpto(base);
      while stream.buffer[stream.bufferPos] != 0
        invariant Valid() && stream.CanUnget() && SavedFrom(base) && p <= stream.position
        invariant saved.value == old(saved.value) || fresh(saved.value)
        invariant stream.start == old(stream.start) && stream.count == old(stream.count)
        decreases stream.count - stream.bufferPos
      {
        KeepCached(base);
      }
      SavedSplit(base, p);
      stream.BehindChar();
    }

    method KeepCached(ghost base: nat)
      requires Valid() && stream.CanUnget() && stream.buffer[stream.bufferPos] != 0 && SavedFrom(base)
      modifies stream, saved, saved.value
      ensures Valid() && SavedFrom(base) && (saved.value == old(saved.value) || fresh(saved.value))
      ensures stream.CanUnget() && stream.start == old(stream.start) && stream.count == old(stream.count)
      ensures stream.position == old(stream.position) + 1
      ensures stream.bufferPos == old(stream.bufferPos) + 1 && stream.bufferPos <= stream.count
    {
      hide Utf8.ValidPrefix;
      var b := stream.TakeCached();
      assert saved.Text() == old(saved.Text());
      Save(b);
      ghost var t, p := stream.Text(), stream.position;
      assert t[base..p] == t[base..p - 1] + [t[p - 1]];
    }

    lemma SavedUpto(base: nat)
      requires Valid() && SavedFrom(base)
      ensures base <= stream.position && saved.Text() == stream.Text()[base..stream.position]
    {
    }

    lemma SavedSplit(base: nat, p: nat)
      requires Valid() && SavedFrom(base) && base <= p <= stream.position
      ensures saved.Text() == stream.Text()[base..p] + stream.Text()[p..stream.position]
    {
      assert stream.Text()[base..stream.position] == stream.Text()[base..p] + stream.Text()[p..stream.position];
    }

    /** lex_scan: reads one token; its bytes, those of a rejected one too, are what is saved. */
    method Next()
      requires Valid()
      modifies this`token, stream, stream.buffer, saved, saved.value
      ensures Valid() && (saved.value == old(saved.value) || fresh(saved.value))
      ensures SavedFrom(old(stream.position) + SpaceRun(old(Rest())))
      ensures token == Lex(old(Rest()), stream.Broken()).token
      ensures !token.Stops() ==> Rest() == Lex(old(Rest()), stream.Broken()).rest
    {
      hide Utf8.ValidPrefix, Lex, Reads, SpaceRun, Valid, SavedFrom;
      ghost var t, broken := stream.Text(), stream.Broken();
      ghost var p;
      var c;
      c, p := Start(t, broken);
      LexHead(t, p, broken);
      WasRead(p, c);
      if c == STATE_EOF {
        token := EndOfFile;
        return;
      }
      if c == STATE_ERROR {
        token := Invalid;
        return;
      }
      SaveFirst(t[p..], p, c);
      ScanFrom(t[p..], p, c);
    }

    /** The beginning of lex_scan: nothing saved, and white space skipped. */
    method Start(ghost t: bytes, ghost broken: bool) returns (c: int, ghost p: nat)
      requires Valid() && t == stream.Text() && broken == stream.Broken()
      modifies stream, stream.buffer, saved, saved.value
      ensures Valid() && saved.value == old(saved.value) && saved.Text() == []
      ensures p <= |t| && Reads(p, c) && (p < |t| ==> !IsSpace(t[p]))
      ensures p == old(stream.position) + SpaceRun(old(Rest()))
      ensures Lex(old(Rest()), broken) == Lex(t[p..], broken)
    {
      hide Utf8.ValidPrefix, Lex, Reads, SpaceRun;
      saved.Clear();
      c, p := SkipSpace(t, broken);
    }

    lemma WasRead(p: nat, c: int)
      requires Valid() && Reads(p, c) && saved.Text() == []
      ensures p < |stream.Text()| ==> c != STATE_EOF && c != STATE_ERROR
      ensures p == |stream.Text()| ==> c == stream.EndCode() && SavedFrom(p)
    {
    }

    method SaveFirst(ghost s: bytes, ghost p: nat, c: int)
      requires Valid() && saved.Text() == [] && Reads(p, c)
      requires p < |stream.Text()| && s == stream.Text()[p..]
      modifies saved, saved.value
      ensures Valid() && (saved.value == old(saved.value) || fresh(saved.value))
      ensures Holds(s, p, 0, c)
    {
      hide Utf8.ValidPrefix;
      SavedIsText();
      Save(if c < 0 then c + 256 else c);
      assert saved.Text() == s[..1];
    }

    /** Lex at byte `p` of a text, where no white space is. */
    static lemma LexHead(t: bytes, p: nat, broken: bool)
      requires p <= |t| && (p < |t| ==> !IsSpace(t[p]))
      ensures p == |t| ==> Lex(t[p..], broken).token == if broken then Invalid else EndOfFile
      ensures p < |t| ==> Lex(t[p..], broken) == LexHere(t[p..])
    {
    }

    /** Lex of a text that starts with a token. */
    static ghost function LexHere(s: bytes): Scan
      requires s != []
    {
      if IsPunct(s[0]) then Scan(Punct(s[0]), s[1..])
      else if s[0] == QUOTE then LexString(s[1..])
      else if IsDigit(s[0]) || s[0] == MINUS then LexNumber(s)
      else if IsAlpha(s[0]) then LexWord(s)
      else Scan(Invalid, [])
    }

    /** The dispatch of lex_scan on the first byte of a token, which is held. */
    method ScanFrom(ghost s: bytes, ghost base: nat, c: int)
      requires Valid() && s != [] && Holds(s, base, 0, c)
      modifies this`token, stream, stream.buffer, saved, saved.value
      ensures Valid() && SavedFrom(base) && (saved.value == old(saved.value) || fresh(saved.value))
      ensures token == LexHere(s).token
      ensures !token.Stops() ==> Rest() == LexHere(s).rest
    {
      hide Utf8.ValidPrefix, LexString, LexNumber, LexWord;
      if c == LBRACE || c == RBRACE || c == LBRACKET || c == RBRACKET || c == COLON || c == COMMA {
        token := Punct(c);
        assert Rest() == s[1..];
      } else if c == QUOTE {
        ScanString(s, base);
      } else if IsDigit(c) || c == MINUS {
        ScanNumber(s, base, c);
      } else if IsAlpha(c) {
        ScanWord(s, base, c);
      } else {
        SavedIsText();
        assert stream.CanUnget();
        SaveCached(base);
        token := Invalid;
      }
    }
  }
}
