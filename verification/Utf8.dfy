/** UTF-8 encoding and checking (jansson-2.3/src/utf.c), against sections 3 and 4 of RFC 3629. */
module Utf8 {
  import opened Bytes

  predicate IsScalar(cp: int) {
    0 <= cp <= 0x10FFFF && !(0xD800 <= cp <= 0xDFFF)
  }

  type scalar = cp: int | IsScalar(cp) witness 0

  predicate IsContinuation(b: byte) {
    0x80 <= b <= 0xBF
  }

  /** The bytes utf8_encode stores for a code point it accepts. */
  function Encode(cp: int): (s: bytes)
    requires 0 <= cp <= 0x10FFFF
    ensures 1 <= |s| <= 4
  {
    if cp < 0x80 then [cp]
    else if cp < 0x800 then [0xC0 + cp / 64, 0x80 + cp % 64]
    else if cp < 0x10000 then [0xE0 + cp / 64 / 64, 0x80 + cp / 64 % 64, 0x80 + cp % 64]
    else [0xF0 + cp / 64 / 64 / 64, 0x80 + cp / 64 / 64 % 64, 0x80 + cp / 64 % 64, 0x80 + cp % 64]
  }

  /** utf8_encode: fills the buffer and returns 0, or returns -1 and leaves the buffer alone. */
  method EncodeInto(codepoint: int, buffer: array<byte>) returns (rc: int, size: nat)
    requires buffer.Length >= 4
    modifies buffer
    ensures rc == 0 <==> 0 <= codepoint <= 0x10FFFF
    ensures rc == 0 ==> size == |Encode(codepoint)| && buffer[..size] == Encode(codepoint)
    ensures rc == 0 ==> buffer[size..] == old(buffer[size..])
    ensures rc != 0 ==> rc == -1 && buffer[..] == old(buffer[..])
  {
    size := 0;
    if codepoint < 0 {
      return -1, 0;
    } else if codepoint < 0x80 {
      buffer[0] := codepoint;
      size := 1;
    } else if codepoint < 0x800 {
      buffer[0] := 0xC0 + codepoint / 64;
      buffer[1] := 0x80 + codepoint % 64;
      size := 2;
    } else if codepoint < 0x10000 {
      buffer[0] := 0xE0 + codepoint / 64 / 64;
      buffer[1] := 0x80 + codepoint / 64 % 64;
      buffer[2] := 0x80 + codepoint % 64;
      size := 3;
    } else if codepoint <= 0x10FFFF {
      buffer[0] := 0xF0 + codepoint / 64 / 64 / 64;
      buffer[1] := 0x80 + codepoint / 64 / 64 % 64;
      buffer[2] := 0x80 + codepoint / 64 % 64;
      buffer[3] := 0x80 + codepoint % 64;
      size := 4;
    } else {
      return -1, 0;
    }
    rc := 0;
  }

  /** utf8_check_first: the length a first byte announces, 0 when it cannot start a sequence. */
  function CheckFirst(u: byte): (count: nat)
    ensures count <= 4
  {
    if u < 0x80 then 1
    else if u <= 0xBF then 0
    else if u <= 0xC1 then 0
    else if u <= 0xDF then 2
    else if u <= 0xEF then 3
    else if u <= 0xF4 then 4
    else 0
  }

  /** The payload bits of the first `n` bytes of a sequence of `size` bytes, most significant first. */
  function Payload(s: bytes, size: nat, n: nat): (v: nat)
    requires 2 <= size <= 4 && 1 <= n <= |s|
  {
    if n == 1 then
      if size == 2 then s[0] % 32 else if size == 3 then s[0] % 16 else s[0] % 8
    else
      Payload(s, size, n - 1) * 64 + s[n - 1] % 64
  }

  /** The code point of a complete multi-byte sequence, if the bytes are one. */
  function FullValue(s: bytes, size: nat): (r: Option<int>)
    requires 1 <= |s|
  {
    if !(2 <= size <= 4) || |s| < size then None
    else if exists i :: 1 <= i < size && !IsContinuation(s[i]) then None
    else
      var v := Payload(s, size, size);
      if !IsScalar(v) then None
      else if (size == 2 && v < 0x80) || (size == 3 && v < 0x800) || (size == 4 && v < 0x10000) then None
      else Some(v)
  }

  /** utf8_check_full on the bytes of `s` from `at` on; `s` is followed by a NUL. */
  method CheckFull(s: bytes, at: nat, size: nat) returns (r: Option<int>)
    requires at < |s|
    ensures r == FullValue(s[at..], size)
  {
    var u := s[at];
    var value: int;
    if size == 2 {
      value := u % 32;
    } else if size == 3 {
      value := u % 16;
    } else if size == 4 {
      value := u % 8;
    } else {
      return None;
    }
    var i := 1;
    while i < size
      invariant 1 <= i <= size && at + i <= |s|
      invariant forall k :: 1 <= k < i ==> IsContinuation(s[at..][k])
      invariant value == Payload(s[at..], size, i)
    {
      u := At(s, at + i);
      if u < 0x80 || u > 0xBF {
        assert at + i < |s| ==> !IsContinuation(s[at..][i]);
        return None;
      }
      value := value * 64 + u % 64;
      i := i + 1;
    }
    if value > 0x10FFFF {
      return None;
    } else if 0xD800 <= value <= 0xDFFF {
      return None;
    } else if (size == 2 && value < 0x80) || (size == 3 && value < 0x800) || (size == 4 && value < 0x10000) {
      return None;
    }
    return Some(value);
  }

  datatype Char = Char(cp: int, size: nat)

  /** The first character of a non-empty string, if it starts with one. */
  function DecodeOne(s: bytes): (r: Option<Char>)
    requires s != []
  {
    var count := CheckFirst(s[0]);
    if count == 0 then None
    else if count == 1 then Some(Char(s[0], 1))
    else
      match FullValue(s, count)
      case None => None
      case Some(v) => Some(Char(v, count))
  }

  /** utf8_iterate: the code point and its length; at the terminator it stays where it is and reads nothing. */
  method Iterate(s: bytes, pos: nat) returns (r: Option<Char>)
    requires pos <= |s|
    ensures r == if pos == |s| then Some(Char(0, 0)) else DecodeOne(s[pos..])
  {
    if pos == |s| {
      return Some(Char(0, 0));
    }
    var count := CheckFirst(s[pos]);
    if count == 0 {
      return None;
    }
    if count == 1 {
      return Some(Char(s[pos], 1));
    }
    var full := CheckFull(s, pos, count);
    if full == None {
      return None;
    }
    return Some(Char(full.value, count));
  }

  lemma DecodeInvertsEncode(cp: int, rest: bytes)
    requires IsScalar(cp)
    ensures DecodeOne(Encode(cp) + rest) == Some(Char(cp, |Encode(cp)|))
  {
    var e := Encode(cp);
    var s := e + rest;
    if |e| >= 2 {
      PayloadUnfold(s, |e|);
      assert forall i :: 0 <= i < |e| ==> s[i] == e[i];
      PayloadOfEncoding(cp);
      assert forall i :: 1 <= i < |e| ==> IsContinuation(e[i]);
    }
  }

  lemma PayloadUnfold(s: bytes, n: nat)
    requires 2 <= n <= 4 && n <= |s|
    ensures Payload(s, n, n) == Bits(s[..n])
  {
    assert Payload(s, n, 2) == Payload(s, n, 1) * 64 + s[1] % 64;
    if n >= 3 {
      assert Payload(s, n, 3) == Payload(s, n, 2) * 64 + s[2] % 64;
    }
    if n == 4 {
      assert Payload(s, n, 4) == Payload(s, n, 3) * 64 + s[3] % 64;
    }
  }

  /** `Payload` of a complete sequence without the recursion. */
  function Bits(e: bytes): int
    requires 2 <= |e| <= 4
  {
    if |e| == 2 then Mix(e[0] % 32, e[1])
    else if |e| == 3 then Mix(Mix(e[0] % 16, e[1]), e[2])
    else Mix(Mix(Mix(e[0] % 8, e[1]), e[2]), e[3])
  }

  function Mix(value: int, u: int): int {
    value * 64 + u % 64
  }

  lemma PayloadOfEncoding(cp: int)
    requires 0x80 <= cp <= 0x10FFFF
    ensures Bits(Encode(cp)) == cp
  {
    var e := Encode(cp);
    var mid := cp / 64;
    var top := mid / 64;
    MixRest(cp);
    MixRest(mid);
    MixRest(top);
    if cp < 0x800 {
      LowBits(0xC0, 32, mid);
    } else if cp < 0x10000 {
      LowBits(0xE0, 16, top);
      assert Mix(Mix(top, e[1]), e[2]) == cp;
    } else {
      LowBits(0xF0, 8, top / 64);
      assert Mix(Mix(Mix(top / 64, e[1]), e[2]), e[3]) == cp;
    }
  }

  lemma LowBits(mark: nat, width: nat, x: nat)
    requires (mark == 0xC0 && width == 32) || (mark == 0xE0 && width == 16) || (mark == 0xF0 && width == 8)
    requires x < width
    ensures (mark + x) % width == x
  {
  }

  /** The low six bits travel in a continuation byte. */
  lemma MixRest(x: nat)
    ensures Mix(x / 64, 0x80 + x % 64) == x
  {
  }

  lemma EncodingOfPayload(e: bytes)
    requires 2 <= |e| <= 4 && CheckFirst(e[0]) == |e|
    requires forall i :: 1 <= i < |e| ==> IsContinuation(e[i])
    requires if |e| == 2 then 0x80 <= Bits(e) else if |e| == 3 then 0x800 <= Bits(e) else 0x10000 <= Bits(e) <= 0x10FFFF
    ensures Encode(Bits(e)) == e
  {
    if |e| == 2 {
      EncodingOfTwo(e);
    } else if |e| == 3 {
      EncodingOfThree(e);
    } else {
      EncodingOfFour(e);
    }
  }

  lemma EncodingOfTwo(e: bytes)
    requires |e| == 2 && CheckFirst(e[0]) == 2 && IsContinuation(e[1]) && 0x80 <= Bits(e)
    ensures Encode(Bits(e)) == e
  {
    UnMix(e[0] % 32, e[1]);
  }

  lemma EncodingOfThree(e: bytes)
    requires |e| == 3 && CheckFirst(e[0]) == 3 && IsContinuation(e[1]) && IsContinuation(e[2]) && 0x800 <= Bits(e)
    ensures Encode(Bits(e)) == e
  {
    var a := Mix(e[0] % 16, e[1]);
    UnMix(e[0] % 16, e[1]);
    UnMix(a, e[2]);
    assert Bits(e) == Mix(a, e[2]) && a < 1024;
    assert Bits(e) < 0x10000;
    hide Mix;
    assert Bits(e) / 64 == a && a / 64 == e[0] % 16 && e[0] == 0xE0 + e[0] % 16;
  }

  lemma EncodingOfFour(e: bytes)
    requires |e| == 4 && CheckFirst(e[0]) == 4 && IsContinuation(e[1]) && IsContinuation(e[2]) && IsContinuation(e[3])
    requires 0x10000 <= Bits(e) <= 0x10FFFF
    ensures Encode(Bits(e)) == e
  {
    UnMix(e[0] % 8, e[1]);
    UnMix(Mix(e[0] % 8, e[1]), e[2]);
    UnMix(Mix(Mix(e[0] % 8, e[1]), e[2]), e[3]);
  }

  lemma UnMix(value: int, u: byte)
    requires IsContinuation(u)
    ensures Mix(value, u) / 64 == value && 0x80 + Mix(value, u) % 64 == u
  {
  }

  /** Whatever is decoded is a scalar value, in its only (shortest) encoding. */
  lemma EncodeInvertsDecode(s: bytes)
    requires s != [] && DecodeOne(s).Some?
    ensures var c := DecodeOne(s).value;
      1 <= c.size <= |s| && IsScalar(c.cp) && Encode(c.cp) == s[..c.size]
  {
    var c := DecodeOne(s).value;
    if c.size >= 2 {
      PayloadUnfold(s, c.size);
      EncodingOfPayload(s[..c.size]);
    }
  }

  // ---- the byte ranges of section 4 of RFC 3629 ----

  predicate InTable(e: bytes): (r: bool)
    ensures r ==> 1 <= |e| <= 4
  {
    if |e| == 1 then e[0] <= 0x7F
    else if |e| == 2 then 0xC2 <= e[0] <= 0xDF && 0x80 <= e[1] <= 0xBF
    else if |e| == 3 then
      && 0x80 <= e[2] <= 0xBF
      && (|| (e[0] == 0xE0 && 0xA0 <= e[1] <= 0xBF)
          || (0xE1 <= e[0] <= 0xEC && 0x80 <= e[1] <= 0xBF)
          || (e[0] == 0xED && 0x80 <= e[1] <= 0x9F)
          || (0xEE <= e[0] <= 0xEF && 0x80 <= e[1] <= 0xBF))
    else
      && |e| == 4 && 0x80 <= e[2] <= 0xBF && 0x80 <= e[3] <= 0xBF
      && (|| (e[0] == 0xF0 && 0x90 <= e[1] <= 0xBF)
          || (0xF1 <= e[0] <= 0xF3 && 0x80 <= e[1] <= 0xBF)
          || (e[0] == 0xF4 && 0x80 <= e[1] <= 0x8F))
  }

  /** The number whose bits are the payload bits of section 3. */
  function TableValue(e: bytes): int
    requires 1 <= |e| <= 4
  {
    var lead: int, tail: seq<int> := e[0], seq(|e| - 1, i requires 0 <= i < |e| - 1 => (e[i + 1] as int) - 0x80);
    if |e| == 1 then lead
    else if |e| == 2 then (lead - 0xC0) * 64 + tail[0]
    else if |e| == 3 then (lead - 0xE0) * 4096 + tail[0] * 64 + tail[1]
    else (lead - 0xF0) * 262144 + tail[0] * 4096 + tail[1] * 64 + tail[2]
  }

  lemma BitsAre(e: bytes)
    requires 2 <= |e| <= 4 && CheckFirst(e[0]) == |e| && forall i :: 1 <= i < |e| ==> IsContinuation(e[i])
    ensures Bits(e) == TableValue(e)
  {
    if |e| == 2 {
      LowBits(0xC0, 32, e[0] - 0xC0);
    } else if |e| == 3 {
      LowBits(0xE0, 16, e[0] - 0xE0);
    } else {
      LowBits(0xF0, 8, e[0] - 0xF0);
    }
    forall i | 1 <= i < |e|
      ensures e[i] % 64 == e[i] - 0x80
    {
      assert IsContinuation(e[i]);
    }
  }

  lemma TableBits(e: bytes)
    requires 2 <= |e| <= 4 && CheckFirst(e[0]) == |e| && forall i :: 1 <= i < |e| ==> IsContinuation(e[i])
    ensures InTable(e) <==> IsScalar(Bits(e)) && (|e| == 3 ==> Bits(e) >= 0x800) && (|e| == 4 ==> Bits(e) >= 0x10000)
    ensures Bits(e) == TableValue(e) && (|e| == 2 ==> Bits(e) >= 0x80)
  {
    hide Bits;
    BitsAre(e);
    assert IsContinuation(e[1]);
    assert |e| >= 3 ==> IsContinuation(e[2]);
    assert |e| == 4 ==> IsContinuation(e[3]);
  }

  /** A string starts with a character exactly when its first bytes are in the table, and it has their value. */
  lemma TableIff(s: bytes)
    requires s != []
    ensures DecodeOne(s).Some? <==> exists n :: 1 <= n <= |s| && InTable(s[..n])
    ensures forall n :: 1 <= n <= |s| && InTable(s[..n]) ==> DecodeOne(s) == Some(Char(TableValue(s[..n]), n))
  {
    hide InTable, TableValue, Bits, Payload;
    forall n | 1 <= n <= |s| && InTable(s[..n])
      ensures DecodeOne(s) == Some(Char(TableValue(s[..n]), n))
    {
      InTableDecodes(s, n);
    }
    if DecodeOne(s).Some? {
      DecodedInTable(s);
    }
  }

  lemma TableFirst(e: bytes)
    requires InTable(e)
    ensures 1 <= |e| <= 4 && CheckFirst(e[0]) == |e| && forall i :: 1 <= i < |e| ==> IsContinuation(e[i])
    ensures |e| == 1 ==> TableValue(e) == e[0]
  {
  }

  lemma InTableDecodes(s: bytes, n: nat)
    requires 1 <= n <= |s| && InTable(s[..n])
    ensures DecodeOne(s) == Some(Char(TableValue(s[..n]), n))
  {
    hide InTable, TableValue, Bits, Payload;
    TableFirst(s[..n]);
    assert forall i :: 0 <= i < n ==> s[..n][i] == s[i];
    if n > 1 {
      PayloadUnfold(s, n);
      TableBits(s[..n]);
    }
  }

  lemma DecodedInTable(s: bytes)
    requires s != [] && DecodeOne(s).Some?
    ensures var n := DecodeOne(s).value.size; 1 <= n <= |s| && InTable(s[..n])
  {
    hide TableValue, Bits, Payload;
    var n := DecodeOne(s).value.size;
    if n > 1 {
      PayloadUnfold(s, n);
      TableBits(s[..n]);
    }
  }

  function EncodeAll(cps: seq<scalar>): bytes {
    if cps == [] then [] else Encode(cps[0]) + EncodeAll(cps[1..])
  }

  /** The longest prefix that is a sequence of well-formed characters. */
  function ValidPrefix(s: bytes): (p: bytes)
    ensures p <= s
  {
    if s == [] then []
    else match DecodeOne(s)
      case None => []
      case Some(c) => EncodeInvertsDecode(s); s[..c.size] + ValidPrefix(s[c.size..])
  }

  predicate Valid(s: bytes) {
    ValidPrefix(s) == s
  }

  /** Valid strings are exactly the concatenations of encodings of scalar values. */
  lemma {:induction false} ValidOfEncoding(cps: seq<scalar>)
    ensures Valid(EncodeAll(cps))
  {
    if cps != [] {
      var rest := EncodeAll(cps[1..]);
      ValidOfEncoding(cps[1..]);
      DecodeInvertsEncode(cps[0], rest);
      var s := Encode(cps[0]) + rest;
      assert s[|Encode(cps[0])|..] == rest;
      assert s[..|Encode(cps[0])|] == Encode(cps[0]);
    }
  }

  lemma {:induction false} EncodingOfValid(s: bytes) returns (cps: seq<scalar>)
    requires Valid(s)
    ensures EncodeAll(cps) == s
  {
    if s == [] {
      cps := [];
    } else {
      ValidStep(s);
      var c := DecodeOne(s).value;
      EncodeInvertsDecode(s);
      var tail := EncodingOfValid(s[c.size..]);
      cps := [c.cp] + tail;
      assert cps[1..] == tail;
      assert s == s[..c.size] + s[c.size..];
    }
  }

  lemma ValidStep(s: bytes)
    requires s != []
    ensures Valid(s) <==>
      DecodeOne(s).Some? && 1 <= DecodeOne(s).value.size <= |s| && Valid(s[DecodeOne(s).value.size..])
  {
    if DecodeOne(s).Some? {
      var n := DecodeOne(s).value.size;
      assert 1 <= n <= |s| by { EncodeInvertsDecode(s); }
      var t := ValidPrefix(s[n..]);
      assert ValidPrefix(s) == s[..n] + t;
      assert s == s[..n] + s[n..];
      assert (s[..n] + t)[n..] == t;
    }
  }

  lemma {:induction false} ValidConcat(a: bytes, b: bytes)
    requires Valid(a)
    ensures ValidPrefix(a + b) == a + ValidPrefix(b)
    ensures Valid(b) ==> Valid(a + b)
    decreases |a|
  {
    if a == [] {
      assert a + b == b;
    } else {
      var c := DecodeOne(a).value;
      assert 1 <= c.size <= |a| && Valid(a[c.size..]) && Encode(c.cp) == a[..c.size] && IsScalar(c.cp) by {
        ValidStep(a);
        EncodeInvertsDecode(a);
      }
      var head, t := Encode(c.cp), a[c.size..];
      ValidConcat(t, b);
      assert a == head + t;
      Assoc(head, t, b);
      DecodeInvertsEncode(c.cp, t + b);
      PrefixOfHead(head, t + b);
      Assoc(head, t, ValidPrefix(b));
    }
  }

  lemma PrefixOfHead(head: bytes, t: bytes)
    requires head != [] && DecodeOne(head + t).Some? && DecodeOne(head + t).value.size == |head|
    ensures ValidPrefix(head + t) == head + ValidPrefix(t)
  {
    var s := head + t;
    assert s[|head|..] == t && s[..|head|] == head;
  }

  lemma {:induction false} AsciiValid(s: bytes)
    requires forall i :: 0 <= i < |s| ==> s[i] < 0x80
    ensures Valid(s)
  {
    if s != [] {
      AsciiValid(s[1..]);
      ValidStep(s);
    }
  }

  lemma ValidEmpty()
    ensures Valid([])
  {
  }

  /** utf8_check_string over the first `length` bytes. */
  method CheckString(text: bytes) returns (ok: bool)
    ensures ok <==> Valid(text)
  {
    hide Valid;
    ValidEmpty();
    var length := |text|;
    var i := 0;
    while i < length
      invariant 0 <= i <= length
      invariant Valid(text) <==> Valid(text[i..])
    {
      ValidStep(text[i..]);
      var count := CheckFirst(text[i]);
      if count == 0 {
        return false;
      } else if count > 1 {
        if i + count > length {
          return false;
        }
        var full := CheckFull(text, i, count);
        if full == None {
          return false;
        }
        i := i + count - 1;
      }
      i := i + 1;
    }
    assert text[i..] == [];
    return true;
  }
}
